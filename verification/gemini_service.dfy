/** The generation client (services/geminiService.ts): the API-key check,
    the normalisation of the model's reply, and the classification of the
    errors thrown while generating. The request to the model itself is not
    modelled; its outcome arrives as a `ModelReply`. */
module GeminiService {
  import opened Wrappers
  import opened JsStrings

  // The longer messages are written in pieces so that their first
  // characters are visible to the verifier.

  /** The marker that lets the rest of the client recognise a missing key. */
  const KeyMissingMarker := "API_KEY_MISSING:"
  const KeyMissingMessage := KeyMissingMarker + " The Gemini API key is not configured. Please ensure the API_KEY environment variable is set up."
  const EmptyResponseMessage := "Received empty response from AI model." + " Please try a different prompt or check model output."
  const InvalidKeyMessage := "Invalid API Key." + " Please check your API_KEY environment variable."
  const QuotaMessage := "API Quota Exceeded." + " Please check your Gemini API usage and limits."
  const ModelIssueMessage := "The AI model encountered an issue" + " processing your request (e.g. safety settings, content policy, model error)." + " Please try a different prompt or modify your content."
  const GenerationFailedPrefix := "AI generation failed: "
  const UnknownApiError := "Unknown error during API call"

  /** A Markdown code fence. */
  const Fence := "```"

  /** `s` cannot start with `prefix` because they differ at position `j`. */
  lemma DiffersAt(s: string, prefix: string, j: nat)
    requires j < |prefix| && j < |s| && s[j] != prefix[j]
    ensures !StartsWith(s, prefix)
  {
  }

  // ---------------------------------------------------------------------
  // ensureApiKey

  /** `ensureApiKey`: the key read from the environment, or the marked
      configuration error when it is unset or empty. */
  function EnsureApiKey(apiKey: Option<string>): (r: Result<string, string>)
    ensures r.Failure? <==> apiKey.None? || apiKey.value == ""
    ensures r.Failure? ==> StartsWith(r.error, KeyMissingMarker)
    ensures r.Success? ==> r.value == apiKey.value
  {
    if apiKey.None? || apiKey.value == "" then Failure(KeyMissingMessage)
    else Success(apiKey.value)
  }

  // ---------------------------------------------------------------------
  // cleanLatexResponse

  /** Length of the optional tag the fence pattern consumes right after the
      opening fence: `latex` is tried before `tex`, and neither needs to be
      followed by whitespace. */
  function FenceTagLength(t: string): (n: nat)
    ensures n == 0 || n == 3 || n == 5
  {
    if StartsWith(t, Fence + "latex") then 5
    else if StartsWith(t, Fence + "tex") then 3
    else 0
  }

  /** What the anchors of the fence pattern demand: the text starts and ends
      with a fence, and the two fences do not overlap. */
  predicate IsFenceWrapped(t: string) {
    |t| >= 6 && StartsWith(t, Fence) && EndsWith(t, Fence)
  }

  /** A tag read after the opening fence never runs into the closing fence,
      because the tag's letters are not backticks. */
  lemma TagBeforeClosingFence(t: string)
    requires IsFenceWrapped(t)
    ensures 6 + FenceTagLength(t) <= |t|
  {
    var n := |t|;
    assert t[n - 3..][0] == t[n - 3] && t[n - 3..][1] == t[n - 2] && t[n - 3..][2] == t[n - 1];
    if FenceTagLength(t) == 5 {
      assert t[..8][3] == t[3] && t[..8][4] == t[4] && t[..8][5] == t[5] && t[..8][6] == t[6] && t[..8][7] == t[7];
      assert t[3] != '`' && t[4] != '`' && t[5] != '`' && t[6] != '`' && t[7] != '`';
    } else if FenceTagLength(t) == 3 {
      assert t[..6][3] == t[3] && t[..6][4] == t[4] && t[..6][5] == t[5];
      assert t[3] != '`' && t[4] != '`' && t[5] != '`';
    }
  }

  /** The capture group `match[1]` of `/^```(?:latex|tex)?\s*\n?(.*?)\n?\s*```$/s`
      on `t`, or `None` when the pattern does not match. The pattern matches
      exactly the fence-wrapped texts. Its greedy `\s*` eats the whitespace
      after the tag and its lazy group stops before the whitespace that
      precedes the closing fence, so the group is the text between the tag
      and the closing fence with both ends trimmed. */
  function FenceCapture(t: string): (g: Option<string>)
    ensures g.Some? <==> IsFenceWrapped(t)
    ensures g.Some? ==> IsTrimmed(g.value)
  {
    if IsFenceWrapped(t) then
      TagBeforeClosingFence(t);
      Some(Trim(t[3 + FenceTagLength(t)..|t| - 3]))
    else None
  }

  /** `cleanLatexResponse`: an absent or blank reply is an error; otherwise the
      trimmed reply, with one enclosing fence stripped when its content is not
      empty. */
  function CleanLatexResponse(raw: Option<string>): (r: Result<string, string>)
    ensures r.Failure? <==> raw.None? || AllWhitespace(raw.value)
    ensures r.Failure? ==> r.error == EmptyResponseMessage
    ensures r.Success? ==> r.value != "" && IsTrimmed(r.value)
    ensures r.Success? && r.value != Trim(raw.value) ==> IsFenceWrapped(Trim(raw.value))
  {
    if raw.None? || Trim(raw.value) == "" then Failure(EmptyResponseMessage)
    else
      var t := Trim(raw.value);
      match FenceCapture(t)
      case Some(g) =>
        if g != "" then TrimOfTrimmed(g); Success(Trim(g)) else Success(t)
      case None => Success(t)
  }

  /** A Markdown code block: a fence, an optional tag, the body and the
      closing fence. */
  function FencedBlock(tag: string, body: string): string {
    Fence + tag + body + Fence
  }

  /** The fenced text a model typically returns: optional whitespace, a fence
      with an optional `latex`/`tex` tag, whitespace, the content, whitespace,
      the closing fence and optional whitespace, gives the trimmed content.
      An untagged fence whose content starts at once with `latex` or `tex`
      is excluded: the pattern reads those letters as the tag (see
      `CleanReadsContentAsTag`). */
  lemma CleanStripsFence(lead: string, tag: string, ws1: string, x: string, ws2: string, trail: string)
    requires AllWhitespace(lead) && AllWhitespace(ws1) && AllWhitespace(ws2) && AllWhitespace(trail)
    requires tag == "" || tag == "latex" || tag == "tex"
    requires Trim(x) != ""
    requires tag == "" && ws1 == "" ==> !StartsWith(x, "latex") && !StartsWith(x, "tex")
    ensures CleanLatexResponse(Some(lead + FencedBlock(tag, ws1 + x + ws2) + trail)) == Success(Trim(x))
  {
    NonBlankIsNonEmpty(x);
    if tag == "" {
      BodyStartsPlain(ws1, x, ws2);
    }
    FenceCaptureOfBlock(tag, ws1 + x + ws2);
    TrimIgnoresPadding(ws1, x, ws2);
    CleanPaddedBlock(lead, tag, ws1 + x + ws2, trail, Trim(x));
  }

  /** A text that does not trim to nothing has at least one character. */
  lemma NonBlankIsNonEmpty(x: string)
    requires Trim(x) != ""
    ensures x != []
  {
  }

  /** The body of an untagged block starts with a tag word only if the
      content does: whitespace before the content starts no tag, and
      whitespace after it cannot complete one. */
  lemma BodyStartsPlain(ws1: string, x: string, ws2: string)
    requires AllWhitespace(ws1) && AllWhitespace(ws2) && x != []
    requires ws1 == "" ==> !StartsWith(x, "latex") && !StartsWith(x, "tex")
    ensures !StartsWith(ws1 + x + ws2, "latex") && !StartsWith(ws1 + x + ws2, "tex")
  {
    var body := ws1 + x + ws2;
    if ws1 != [] {
      assert body[0] == ws1[0];
      WhitespaceIsNotTagLetter(ws1[0]);
      DiffersAt(body, "latex", 0);
      DiffersAt(body, "tex", 0);
    } else if ws2 == [] {
      assert body == x;
    } else {
      assert body == x + ws2;
      WhitespaceIsNotTagLetter(ws2[0]);
      NoTagAcross(x, ws2, "latex");
      NoTagAcross(x, ws2, "tex");
    }
  }

  /** No letter of a tag word is whitespace. */
  lemma WhitespaceIsNotTagLetter(c: char)
    requires IsWhitespace(c)
    ensures c != 'l' && c != 'a' && c != 't' && c != 'e' && c != 'x'
  {
  }

  /** A text that does not start with a tag word still does not once
      something is appended that begins with a character no tag word
      contains. */
  lemma NoTagAcross(a: string, b: string, w: string)
    requires w == "latex" || w == "tex"
    requires !StartsWith(a, w)
    requires b != [] && b[0] != 'l' && b[0] != 'a' && b[0] != 't' && b[0] != 'e' && b[0] != 'x'
    ensures !StartsWith(a + b, w)
  {
    if |a| >= |w| {
      assert (a + b)[..|w|] == a[..|w|];
    } else if |w| <= |a + b| {
      assert (a + b)[..|w|][|a|] == b[0];
      assert w[|a|] == 'l' || w[|a|] == 'a' || w[|a|] == 't' || w[|a|] == 'e' || w[|a|] == 'x';
    }
  }

  /** A fenced block starts and ends with a backtick. */
  lemma FenceBlockIsTrimmed(tag: string, body: string)
    ensures IsTrimmed(FencedBlock(tag, body))
  {
    var t := FencedBlock(tag, body);
    assert t[0] == '`' && t[|t| - 1] == '`';
  }

  /** A fenced block with a non-empty capture, padded with whitespace,
      cleans to that capture. */
  lemma CleanPaddedBlock(lead: string, tag: string, body: string, trail: string, g: string)
    requires AllWhitespace(lead) && AllWhitespace(trail)
    requires FenceCapture(FencedBlock(tag, body)) == Some(g) && g != ""
    ensures CleanLatexResponse(Some(lead + FencedBlock(tag, body) + trail)) == Success(g)
  {
    var core := FencedBlock(tag, body);
    FenceBlockIsTrimmed(tag, body);
    TrimIgnoresPadding(lead, core, trail);
    TrimOfTrimmed(core);
    TrimOfTrimmed(g);
  }

  /** The capture of a fenced block is its trimmed content, provided the
      tag is read as written. */
  lemma FenceCaptureOfBlock(tag: string, body: string)
    requires tag == "" || tag == "latex" || tag == "tex"
    requires tag == "" ==> !StartsWith(body, "latex") && !StartsWith(body, "tex")
    ensures FenceCapture(FencedBlock(tag, body)) == Some(Trim(body))
  {
    var t := FencedBlock(tag, body);
    assert t[..3] == Fence;
    assert t[|t| - 3..] == Fence;
    assert t[3..] == tag + body + Fence;
    if tag == "latex" {
      assert t[..8] == Fence + "latex";
    } else if tag == "tex" {
      assert t[..6] == Fence + "tex";
      DiffersAt(t, Fence + "latex", 3);
    } else {
      assert t[3..] == body + Fence;
      NoTagAcross(body, Fence, "latex");
      NoTagAcross(body, Fence, "tex");
      TagFollowsFence(t, "latex");
      TagFollowsFence(t, "tex");
    }
    assert FenceTagLength(t) == |tag|;
    assert t[3 + |tag|..|t| - 3] == body;
  }

  /** A text that starts with a fence starts with the fence and a tag word
      exactly when what follows the fence starts with the tag word. */
  lemma TagFollowsFence(t: string, w: string)
    requires StartsWith(t, Fence)
    ensures StartsWith(t, Fence + w) <==> StartsWith(t[3..], w)
  {
    if StartsWith(t, Fence + w) {
      assert t[3..][..|w|] == t[..3 + |w|][3..];
    }
    if StartsWith(t[3..], w) {
      assert t[..3 + |w|] == t[..3] + t[3..][..|w|];
    }
  }

  /** The example from the model's instructions: a `latex` fence around one
      line gives that line. */
  lemma CleanLatexFenceExample()
    ensures CleanLatexResponse(Some("```latex\nX\n```")) == Success("X")
  {
    assert "```latex\nX\n```" == "" + FencedBlock("latex", "\n" + "X" + "\n") + "";
    TrimOfTrimmed("X");
    CleanStripsFence("", "latex", "\n", "X", "\n", "");
  }

  /** A fenced block with nothing inside is returned as it is, fences
      included: the empty capture group counts as no match. */
  lemma CleanKeepsEmptyFence(tag: string, ws: string)
    requires tag == "" || tag == "latex" || tag == "tex"
    requires AllWhitespace(ws)
    ensures CleanLatexResponse(Some(FencedBlock(tag, ws))) == Success(FencedBlock(tag, ws))
  {
    FenceBlockIsTrimmed(tag, ws);
    TrimOfTrimmed(FencedBlock(tag, ws));
    if ws != [] {
      WhitespaceIsNotTagLetter(ws[0]);
      DiffersAt(ws, "latex", 0);
      DiffersAt(ws, "tex", 0);
    }
    FenceCaptureOfBlock(tag, ws);
  }

  /** The two fence-only replies named by the source: six backticks, and a
      `latex` fence around a bare line break. */
  lemma CleanKeepsEmptyFenceExamples()
    ensures CleanLatexResponse(Some("``````")) == Success("``````")
    ensures CleanLatexResponse(Some("```latex\n```")) == Success("```latex\n```")
  {
    assert "``````" == FencedBlock("", "");
    CleanKeepsEmptyFence("", "");
    assert "```latex\n```" == FencedBlock("latex", "\n");
    CleanKeepsEmptyFence("latex", "\n");
  }

  /** A trimmed, non-empty reply that is not wrapped in fences is returned
      unchanged. */
  lemma CleanKeepsPlainText(t: string)
    requires t != "" && IsTrimmed(t) && !IsFenceWrapped(t)
    ensures CleanLatexResponse(Some(t)) == Success(t)
  {
    TrimOfTrimmed(t);
  }

  /** An untagged fence around content that does not start with a tag word
      cleans to the trimmed content. */
  lemma CleanUnwrapsPlainFence(x: string)
    requires Trim(x) != ""
    requires !StartsWith(x, "latex") && !StartsWith(x, "tex")
    ensures CleanLatexResponse(Some(FencedBlock("", x))) == Success(Trim(x))
  {
    assert FencedBlock("", x) == "" + FencedBlock("", "" + x + "") + "";
    CleanStripsFence("", "", "", x, "", "");
  }

  /** Cleaning is not idempotent: a fence nested in a fence loses only the
      outer fence, and cleaning the result again strips the inner one. */
  lemma {:induction false} CleanIsNotIdempotent(x: string)
    requires Trim(x) != ""
    requires !StartsWith(x, "latex") && !StartsWith(x, "tex")
    ensures var once := CleanLatexResponse(Some(FencedBlock("", FencedBlock("", x))));
      && once == Success(FencedBlock("", x))
      && CleanLatexResponse(Some(once.value)) == Success(Trim(x))
      && Trim(x) != once.value
  {
    var inner := FencedBlock("", x);
    assert inner[0] == '`';
    DiffersAt(inner, "latex", 0);
    DiffersAt(inner, "tex", 0);
    FenceBlockIsTrimmed("", x);
    TrimOfTrimmed(inner);
    CleanUnwrapsPlainFence(inner);
    CleanUnwrapsPlainFence(x);
    assert |Trim(x)| < |inner|;
  }

  /** An untagged fence whose content begins with `tex` loses those letters,
      because the pattern reads them as the tag: "```texture```" cleans to
      "ture". */
  lemma {:induction false} CleanReadsContentAsTag(x: string)
    requires Trim(x) != ""
    ensures CleanLatexResponse(Some(Fence + "tex" + x + Fence)) == Success(Trim(x))
  {
    assert Fence + "tex" + x + Fence == "" + FencedBlock("tex", "" + x + "") + "";
    CleanStripsFence("", "tex", "", x, "", "");
  }

  // ---------------------------------------------------------------------
  // handleApiError

  /** The five outcomes of `handleApiError`. */
  datatype ApiFailure = KeyMissing | InvalidKey | QuotaExceeded | ModelIssue | GenerationFailed

  /** The lower-cased message names a model error, a candidate error, the
      safety settings or a block. */
  predicate MentionsModelIssue(lowered: string) {
    || Includes(lowered, "model_error")
    || Includes(lowered, "candidate error")
    || Includes(lowered, "safety settings")
    || Includes(lowered, "blocked")
  }

  /** The ordered tests of `handleApiError`. An absent message is modelled
      as the empty string, which fails every test. */
  function Classify(message: string): (kind: ApiFailure)
    ensures kind == KeyMissing <==> StartsWith(message, KeyMissingMarker)
    ensures kind == InvalidKey <==> !StartsWith(message, KeyMissingMarker) && Includes(message, "API key not valid")
    ensures kind == QuotaExceeded ==> Includes(ToLowerCase(message), "quota")
    ensures kind == ModelIssue ==> MentionsModelIssue(ToLowerCase(message)) && !Includes(ToLowerCase(message), "quota")
    ensures message == "" ==> kind == GenerationFailed
  {
    if StartsWith(message, KeyMissingMarker) then KeyMissing
    else if Includes(message, "API key not valid") then InvalidKey
    else if Includes(ToLowerCase(message), "quota") then QuotaExceeded
    else if MentionsModelIssue(ToLowerCase(message)) then ModelIssue
    else GenerationFailed
  }

  /** `handleApiError` never returns: this is the message of the error it
      throws for an error carrying `message`. */
  function HandleApiError(message: string): (thrown: string)
    ensures thrown != ""
    ensures StartsWith(thrown, KeyMissingMarker) <==> StartsWith(message, KeyMissingMarker)
    ensures StartsWith(message, KeyMissingMarker) ==> thrown == message
    ensures Classify(message) == GenerationFailed ==>
      StartsWith(thrown, GenerationFailedPrefix) && (message != "" ==> EndsWith(thrown, message))
  {
    match Classify(message)
    case KeyMissing => message
    case InvalidKey =>
      DiffersAt(InvalidKeyMessage, KeyMissingMarker, 0); InvalidKeyMessage
    case QuotaExceeded =>
      DiffersAt(QuotaMessage, KeyMissingMarker, 3); QuotaMessage
    case ModelIssue =>
      DiffersAt(ModelIssueMessage, KeyMissingMarker, 0); ModelIssueMessage
    case GenerationFailed =>
      var detail := if message == "" then UnknownApiError else message;
      var thrown := GenerationFailedPrefix + detail;
      assert thrown[1] == 'I';
      DiffersAt(thrown, KeyMissingMarker, 1);
      assert thrown[..|GenerationFailedPrefix|] == GenerationFailedPrefix;
      assert thrown[|thrown| - |detail|..] == detail;
      thrown
  }

  /** "API key not valid" outranks the quota and model-issue tests. */
  lemma InvalidKeyOutranksLaterTests(message: string)
    requires !StartsWith(message, KeyMissingMarker)
    requires Includes(message, "API key not valid")
    ensures HandleApiError(message) == InvalidKeyMessage
  {
  }

  /** The quota test ignores case: "Quota", "QUOTA" or any other spelling is
      caught once the earlier tests have failed. */
  lemma QuotaTestIgnoresCase(message: string, spelling: string)
    requires ToLowerCase(spelling) == "quota"
    requires Includes(message, spelling)
    requires !StartsWith(message, KeyMissingMarker) && !Includes(message, "API key not valid")
    ensures HandleApiError(message) == QuotaMessage
  {
    IncludesLowered(message, spelling);
  }

  /** The model-issue test ignores case as well, and applies only when no
      quota is mentioned. */
  lemma ModelIssueTestIgnoresCase(message: string, spelling: string)
    requires ToLowerCase(spelling) == "blocked" || ToLowerCase(spelling) == "safety settings"
          || ToLowerCase(spelling) == "candidate error" || ToLowerCase(spelling) == "model_error"
    requires Includes(message, spelling)
    requires !StartsWith(message, KeyMissingMarker) && !Includes(message, "API key not valid")
    requires !Includes(ToLowerCase(message), "quota")
    ensures HandleApiError(message) == ModelIssueMessage
  {
    IncludesLowered(message, spelling);
  }

  /** Any other message, or none, becomes a generic generation failure that
      carries it. */
  lemma OtherErrorsAreGenerationFailures(message: string)
    requires !StartsWith(message, KeyMissingMarker) && !Includes(message, "API key not valid")
    requires !Includes(ToLowerCase(message), "quota") && !MentionsModelIssue(ToLowerCase(message))
    ensures HandleApiError(message)
         == GenerationFailedPrefix + (if message == "" then UnknownApiError else message)
  {
  }

  // ---------------------------------------------------------------------
  // The four exported generation functions

  /** How the call to the model ended: with a reply whose `text` may be
      absent, or with an error carrying a message. */
  datatype ModelReply = Replied(text: Option<string>) | Raised(message: string)

  /** The flow shared by `updateBeamerPresentation`, `rewriteSelectedLatex`,
      `generateLatexFromImageAndPrompt` and `generateLatexFromPdfAndPrompt`.
      The key check runs before the request is built and outside the `try`,
      so its error escapes unclassified; the reply is cleaned inside the
      `try`, so an empty reply is classified like any thrown error. */
  function Generate(apiKey: Option<string>, reply: ModelReply): (r: Result<string, string>)
    ensures EnsureApiKey(apiKey).Failure? ==> r == Failure(KeyMissingMessage)
    ensures r.Success? <==> EnsureApiKey(apiKey).Success? && reply.Replied? && CleanLatexResponse(reply.text).Success?
    ensures EnsureApiKey(apiKey).Success? && reply.Raised? ==> r == Failure(HandleApiError(reply.message))
    ensures EnsureApiKey(apiKey).Success? && reply.Replied? && CleanLatexResponse(reply.text).Success? ==>
      r == CleanLatexResponse(reply.text)
    ensures EnsureApiKey(apiKey).Success? && reply.Replied? && CleanLatexResponse(reply.text).Failure? ==>
      r == Failure(HandleApiError(EmptyResponseMessage))
    ensures r.Success? ==> r.value != "" && IsTrimmed(r.value)
    ensures r.Failure? ==> r.error != ""
  {
    match EnsureApiKey(apiKey)
    case Failure(e) => Failure(e)
    case Success(_) =>
      match reply
      case Raised(m) => Failure(HandleApiError(m))
      case Replied(text) =>
        match CleanLatexResponse(text)
        case Success(code) => Success(code)
        case Failure(e) => Failure(HandleApiError(e))
  }

  /** A missing key is reported before any request, whatever the model would
      have answered. */
  lemma MissingKeyPrecedesRequest(reply: ModelReply, other: ModelReply)
    ensures Generate(None, reply) == Generate(None, other) == Failure(KeyMissingMessage)
    ensures Generate(Some(""), reply) == Failure(KeyMissingMessage)
  {
  }

  /** An empty or blank reply is an error, never an empty result, for every
      one of the four calls (a selection rewrite included): it goes through
      the error classification and does not carry the missing-key marker. */
  lemma EmptyReplyIsAnError(key: string, text: Option<string>)
    requires key != ""
    requires text.None? || AllWhitespace(text.value)
    ensures Generate(Some(key), Replied(text)) == Failure(HandleApiError(EmptyResponseMessage))
    ensures !StartsWith(HandleApiError(EmptyResponseMessage), KeyMissingMarker)
  {
    DiffersAt(EmptyResponseMessage, KeyMissingMarker, 0);
  }
}
