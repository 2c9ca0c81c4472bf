/** `buildPrompt` of EmailService: the prompt text sent to the generative model. */
module Prompt {
  import opened Wrappers

  /** The incoming request: the email to answer and an optional tone (`None` is Java's
      `null`). */
  datatype EmailRequest = EmailRequest(emailContent: string, tone: Option<string>)

  /** The fixed instruction block every prompt starts with. Long lines are split into
      short literal pieces, which keeps facts about single characters cheap to prove. */
  const Instructions: string :=
    "You are an email writing " + "assistant.\n"
    + "Task:\n"
    + "Write exactly ONE " + "professional email reply.\n"
    + "\n"
    + "Rules (must follow):\n"
    + "- Do NOT provide multiple " + "options or versions\n"
    + "- Do NOT include headings, " + "bullet points, or " + "explanations\n"
    + "- Do NOT say phrases like " + "\"Here are some options\" " + "or \"To give you the " + "best option\"\n"
    + "- Do NOT use markdown\n"
    + "- Output ONLY the final " + "email content\n"
    + "\n"
    + "Tone: friendly and " + "professional\n"
    + "\n"
    + "Include:\n"
    + "- Greeting\n"
    + "- Email body\n"
    + "- Proper closing\n"
    + "\n"

  /** The words around the tone; there is no space after "a". */
  const ToneOpening: string := "Use a"
  const ToneClosing: string := " tone "

  /** The marker in front of the email content, spelled as in the source. */
  const ContentMarker: string := "orginal email: \n"

  /** The tone clause is added only for a tone that is neither null nor empty. */
  predicate HasTone(req: EmailRequest)
  {
    req.tone.Some? && req.tone.value != []
  }

  function ToneClause(req: EmailRequest): string
  {
    if HasTone(req) then ToneOpening + req.tone.value + ToneClosing else []
  }

  /** The prompt `buildPrompt` returns for `req`. */
  function PromptOf(req: EmailRequest): string
  {
    Instructions + (ToneClause(req) + (ContentMarker + req.emailContent))
  }

  /** `buildPrompt`: appends to an initially empty builder, step by step. */
  method BuildPrompt(req: EmailRequest) returns (prompt: string)
    ensures prompt == PromptOf(req)
  {
    var builder: string := [];
    builder := builder + Instructions;
    assert builder == Instructions;
    ghost var clause: string := [];
    if req.tone.Some? && req.tone.value != [] {
      builder := builder + ToneOpening;
      builder := builder + req.tone.value;
      builder := builder + ToneClosing;
      clause := ToneOpening + req.tone.value + ToneClosing;
      Append3(Instructions, ToneOpening, req.tone.value, ToneClosing);
    }
    assert clause == ToneClause(req);
    assert builder == Instructions + clause;
    builder := builder + ContentMarker;
    builder := builder + req.emailContent;
    Append3(Instructions, clause, ContentMarker, req.emailContent);
    prompt := builder;
  }

  /** Appending three pieces in turn appends their concatenation. */
  lemma Append3(a: string, b: string, c: string, d: string)
    ensures a + b + c + d == a + (b + c + d) && b + c + d == b + (c + d)
  {
  }

  /** Every prompt begins with the instruction block, which ends with the closing line
      and a blank line. */
  lemma PromptStartsWithInstructions(req: EmailRequest)
    ensures Instructions <= PromptOf(req)
    ensures PromptOf(req)[|Instructions| - 18..|Instructions|] == "- Proper closing\n\n"
  {
    assert PromptOf(req)[..|Instructions|] == Instructions;
  }

  /** Right after the instruction block comes `"Use a" + tone + " tone "` when a
      non-empty tone is given, and the content marker otherwise. */
  lemma PromptAfterInstructions(req: EmailRequest)
    ensures HasTone(req) ==>
      PromptOf(req)[|Instructions|..] == ToneOpening + req.tone.value + ToneClosing + ContentMarker + req.emailContent
    ensures !HasTone(req) ==>
      PromptOf(req)[|Instructions|..] == ContentMarker + req.emailContent
  {
    var rest := ToneClause(req) + (ContentMarker + req.emailContent);
    assert PromptOf(req)[|Instructions|..] == rest;
  }

  /** The tone clause is visible in the prompt exactly when a non-empty tone was given:
      without one, the text after the instruction block does not start with "Use a". */
  lemma ToneClauseIffTone(req: EmailRequest)
    ensures ToneOpening <= PromptOf(req)[|Instructions|..] <==> HasTone(req)
  {
    PromptAfterInstructions(req);
    var after := PromptOf(req)[|Instructions|..];
    if !HasTone(req) {
      assert after[0] == 'o';
    } else {
      assert after[..|ToneOpening|] == ToneOpening;
    }
  }

  /** Every prompt ends with the content marker followed by the email content, verbatim. */
  lemma PromptEndsWithContent(req: EmailRequest)
    ensures |ContentMarker + req.emailContent| <= |PromptOf(req)|
    ensures PromptOf(req)[|PromptOf(req)| - |ContentMarker + req.emailContent|..] == ContentMarker + req.emailContent
  {
    EndsWith(Instructions, ToneClause(req), ContentMarker + req.emailContent);
  }

  lemma EndsWith(a: string, b: string, c: string)
    ensures |c| <= |a + (b + c)| && (a + (b + c))[|a + (b + c)| - |c|..] == c
  {
    assert a + (b + c) == (a + b) + c;
  }

  lemma Cancel(x: string, y: string, z: string)
    requires x + y == x + z
    ensures y == z
  {
    assert y == (x + y)[|x|..];
    assert z == (x + z)[|x|..];
  }

  /** For a given tone, the prompt determines the email content. */
  lemma PromptDeterminesContent(a: EmailRequest, b: EmailRequest)
    requires a.tone == b.tone && PromptOf(a) == PromptOf(b)
    ensures a == b
  {
    var clause := ToneClause(a);
    assert clause == ToneClause(b);
    Cancel(Instructions, clause + (ContentMarker + a.emailContent), clause + (ContentMarker + b.emailContent));
    Cancel(clause, ContentMarker + a.emailContent, ContentMarker + b.emailContent);
    Cancel(ContentMarker, a.emailContent, b.emailContent);
  }

  /** Across tones the prompt is ambiguous: a tone may itself hold " tone orginal email: "
      and so take over the start of the content. */
  lemma PromptNotInjective(x: string, y: string)
    requires x != []
    ensures var a := EmailRequest(y + ToneClosing + ContentMarker, Some(x));
            var b := EmailRequest([], Some(x + ToneClosing + ContentMarker + y));
            a != b && PromptOf(a) == PromptOf(b)
  {
    var a := EmailRequest(y + ToneClosing + ContentMarker, Some(x));
    var b := EmailRequest([], Some(x + ToneClosing + ContentMarker + y));
    assert |a.emailContent| > 0;
    SwallowedMarker(x, y);
  }

  /** The text after the instruction block in both requests of `PromptNotInjective`. */
  lemma SwallowedMarker(x: string, y: string)
    ensures ToneOpening + x + ToneClosing + (ContentMarker + (y + ToneClosing + ContentMarker))
         == ToneOpening + (x + ToneClosing + ContentMarker + y) + ToneClosing + (ContentMarker + [])
  {
    var tail := ToneOpening + x + ToneClosing + ContentMarker + y + ToneClosing + ContentMarker;
    assert ToneOpening + x + ToneClosing + (ContentMarker + (y + ToneClosing + ContentMarker)) == tail;
    assert ToneOpening + (x + ToneClosing + ContentMarker + y) + ToneClosing + (ContentMarker + []) == tail;
  }
}
