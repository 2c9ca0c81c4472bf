/** The request body that `generateEmailReply` posts: the escaped prompt placed in a
    fixed JSON envelope by `String.format`. */
module RequestBody {
  import opened Wrappers
  import opened JavaStrings
  import opened JsonString
  import opened JsonEscape
  import opened Prompt

  /** The text block of the source after Java strips its common 16-space indentation,
      one literal per line; it has no final line break, since the closing delimiter
      follows the last brace. */
  const Template: string :=
    "{\n"
    + "    \"contents\": [\n"
    + "      {\n"
    + "        \"parts\": [\n"
    + "          {\n"
    + "            \"text\": \"%s\"\n"
    + "          }\n"
    + "        ]\n"
    + "      }\n"
    + "    ]\n"
    + "  }"

  /** The envelope up to and including the quotation mark that opens the `text` value. */
  const EnvelopeHead: string :=
    "{\n"
    + "    \"contents\": [\n"
    + "      {\n"
    + "        \"parts\": [\n"
    + "          {\n"
    + "            \"text\": \""

  /** The envelope from the quotation mark that closes the `text` value on. */
  const EnvelopeTail: string :=
    "\"\n"
    + "          }\n"
    + "        ]\n"
    + "      }\n"
    + "    ]\n"
    + "  }"

  /** The template is the envelope with one `%s` slot for the `text` value. */
  lemma TemplateHasOneSlot()
    ensures Template == EnvelopeHead + "%s" + EnvelopeTail
    ensures NoPercent(EnvelopeHead) && NoPercent(EnvelopeTail)
  {
    HeadHasNoPercent();
    TailHasNoPercent();
  }

  lemma HeadHasNoPercent()
    ensures NoPercent(EnvelopeHead)
  {
  }

  lemma TailHasNoPercent()
    ensures NoPercent(EnvelopeTail)
  {
  }

  /** The body `generateEmailReply` sends for `req`. */
  function BodyOf(req: EmailRequest): string
  {
    EnvelopeHead + EscapeJson(PromptOf(req)) + EnvelopeTail
  }

  /** Lines 26-39 of `generateEmailReply`: the prompt is built, then escaped, then
      substituted into the template. */
  method GenerateRequestBody(req: EmailRequest) returns (body: string)
    ensures body == BodyOf(req)
  {
    var prompt := BuildPrompt(req);
    prompt := EscapeJson(prompt);
    TemplateHasOneSlot();
    FormatOneSlot(EnvelopeHead, EnvelopeTail, prompt);
    var formatted := Format(Template, prompt);
    body := formatted.value;
  }

  /** Everything in the body except the escaped prompt is fixed. */
  lemma EnvelopeIsFixed(req: EmailRequest)
    ensures |EnvelopeHead| + |EnvelopeTail| <= |BodyOf(req)|
    ensures BodyOf(req)[..|EnvelopeHead|] == EnvelopeHead
    ensures BodyOf(req)[|EnvelopeHead|..|BodyOf(req)| - |EnvelopeTail|] == EscapeJson(PromptOf(req))
    ensures BodyOf(req)[|BodyOf(req)| - |EnvelopeTail|..] == EnvelopeTail
  {
    Slices(EnvelopeHead, EscapeJson(PromptOf(req)), EnvelopeTail);
  }

  lemma Slices(a: string, m: string, b: string)
    ensures |a + m + b| == |a| + |m| + |b|
    ensures (a + m + b)[..|a|] == a
    ensures (a + m + b)[|a|..|a + m + b| - |b|] == m
    ensures (a + m + b)[|a + m + b| - |b|..] == b
  {
    assert a + m + b == a + (m + b);
  }

  /** Two requests whose bodies are equal have equal prompts: the prompt is the only
      variable part and escaping loses nothing. */
  lemma BodyDeterminesPrompt(a: EmailRequest, b: EmailRequest)
    requires BodyOf(a) == BodyOf(b)
    ensures PromptOf(a) == PromptOf(b)
  {
    EnvelopeIsFixed(a);
    EnvelopeIsFixed(b);
    EscapeJsonInjective(PromptOf(a), PromptOf(b));
  }

  /** `s` holds no control character other than line feed. */
  predicate LineFeedControls(s: string)
  {
    forall c :: c in s ==> c >= ' ' || c == '\n'
  }

  lemma LineFeedsByIndex(s: string)
    requires forall i :: 0 <= i < |s| ==> s[i] >= ' ' || s[i] == '\n'
    ensures LineFeedControls(s)
  {
  }

  lemma LineFeedsConcat(a: string, b: string)
    ensures LineFeedControls(a + b) <==> LineFeedControls(a) && LineFeedControls(b)
  {
    assert forall c :: c in a + b <==> c in a || c in b;
  }

  lemma LineFeedsEscapable(s: string)
    requires LineFeedControls(s)
    ensures '\r' !in s && EscapableControls(s)
  {
  }

  lemma InstructionPieces0()
    ensures LineFeedControls("You are an email writing ")
         && LineFeedControls("assistant.\n")
         && LineFeedControls("Task:\n")
         && LineFeedControls("Write exactly ONE ")
  {
    LineFeedsByIndex("You are an email writing ");
    LineFeedsByIndex("assistant.\n");
    LineFeedsByIndex("Task:\n");
    LineFeedsByIndex("Write exactly ONE ");
  }

  lemma InstructionPieces1()
    ensures LineFeedControls("professional email reply.\n")
         && LineFeedControls("\n")
         && LineFeedControls("Rules (must follow):\n")
         && LineFeedControls("- Do NOT provide multiple ")
  {
    LineFeedsByIndex("professional email reply.\n");
    LineFeedsByIndex("\n");
    LineFeedsByIndex("Rules (must follow):\n");
    LineFeedsByIndex("- Do NOT provide multiple ");
  }

  lemma InstructionPieces2()
    ensures LineFeedControls("options or versions\n")
         && LineFeedControls("- Do NOT include headings, ")
         && LineFeedControls("bullet points, or ")
         && LineFeedControls("explanations\n")
  {
    LineFeedsByIndex("options or versions\n");
    LineFeedsByIndex("- Do NOT include headings, ");
    LineFeedsByIndex("bullet points, or ");
    LineFeedsByIndex("explanations\n");
  }

  lemma InstructionPieces3()
    ensures LineFeedControls("- Do NOT say phrases like ")
         && LineFeedControls("\"Here are some options\" ")
         && LineFeedControls("or \"To give you the ")
         && LineFeedControls("best option\"\n")
  {
    LineFeedsByIndex("- Do NOT say phrases like ");
    LineFeedsByIndex("\"Here are some options\" ");
    LineFeedsByIndex("or \"To give you the ");
    LineFeedsByIndex("best option\"\n");
  }

  lemma InstructionPieces4()
    ensures LineFeedControls("- Do NOT use markdown\n")
         && LineFeedControls("- Output ONLY the final ")
         && LineFeedControls("email content\n")
         && LineFeedControls("\n")
  {
    LineFeedsByIndex("- Do NOT use markdown\n");
    LineFeedsByIndex("- Output ONLY the final ");
    LineFeedsByIndex("email content\n");
    LineFeedsByIndex("\n");
  }

  lemma InstructionPieces5()
    ensures LineFeedControls("Tone: friendly and ")
         && LineFeedControls("professional\n")
         && LineFeedControls("\n")
         && LineFeedControls("Include:\n")
  {
    LineFeedsByIndex("Tone: friendly and ");
    LineFeedsByIndex("professional\n");
    LineFeedsByIndex("\n");
    LineFeedsByIndex("Include:\n");
  }

  lemma InstructionPieces6()
    ensures LineFeedControls("- Greeting\n")
         && LineFeedControls("- Email body\n")
         && LineFeedControls("- Proper closing\n")
         && LineFeedControls("\n")
  {
    LineFeedsByIndex("- Greeting\n");
    LineFeedsByIndex("- Email body\n");
    LineFeedsByIndex("- Proper closing\n");
    LineFeedsByIndex("\n");
  }

  /** The instruction block holds no control character but line feeds: in particular no
      carriage return. It is checked literal piece by literal piece. */
  lemma InstructionsEscapable()
    ensures LineFeedControls(Instructions) && '\r' !in Instructions
    ensures EscapableControls(Instructions)
  {
    InstructionPieces0();
    InstructionPieces1();
    InstructionPieces2();
    InstructionPieces3();
    InstructionPieces4();
    InstructionPieces5();
    InstructionPieces6();
    var acc := "You are an email writing ";
    LineFeedsConcat(acc, "assistant.\n");
    acc := acc + "assistant.\n";
    LineFeedsConcat(acc, "Task:\n");
    acc := acc + "Task:\n";
    LineFeedsConcat(acc, "Write exactly ONE ");
    acc := acc + "Write exactly ONE ";
    LineFeedsConcat(acc, "professional email reply.\n");
    acc := acc + "professional email reply.\n";
    LineFeedsConcat(acc, "\n");
    acc := acc + "\n";
    LineFeedsConcat(acc, "Rules (must follow):\n");
    acc := acc + "Rules (must follow):\n";
    LineFeedsConcat(acc, "- Do NOT provide multiple ");
    acc := acc + "- Do NOT provide multiple ";
    LineFeedsConcat(acc, "options or versions\n");
    acc := acc + "options or versions\n";
    LineFeedsConcat(acc, "- Do NOT include headings, ");
    acc := acc + "- Do NOT include headings, ";
    LineFeedsConcat(acc, "bullet points, or ");
    acc := acc + "bullet points, or ";
    LineFeedsConcat(acc, "explanations\n");
    acc := acc + "explanations\n";
    LineFeedsConcat(acc, "- Do NOT say phrases like ");
    acc := acc + "- Do NOT say phrases like ";
    LineFeedsConcat(acc, "\"Here are some options\" ");
    acc := acc + "\"Here are some options\" ";
    LineFeedsConcat(acc, "or \"To give you the ");
    acc := acc + "or \"To give you the ";
    LineFeedsConcat(acc, "best option\"\n");
    acc := acc + "best option\"\n";
    LineFeedsConcat(acc, "- Do NOT use markdown\n");
    acc := acc + "- Do NOT use markdown\n";
    LineFeedsConcat(acc, "- Output ONLY the final ");
    acc := acc + "- Output ONLY the final ";
    LineFeedsConcat(acc, "email content\n");
    acc := acc + "email content\n";
    LineFeedsConcat(acc, "\n");
    acc := acc + "\n";
    LineFeedsConcat(acc, "Tone: friendly and ");
    acc := acc + "Tone: friendly and ";
    LineFeedsConcat(acc, "professional\n");
    acc := acc + "professional\n";
    LineFeedsConcat(acc, "\n");
    acc := acc + "\n";
    LineFeedsConcat(acc, "Include:\n");
    acc := acc + "Include:\n";
    LineFeedsConcat(acc, "- Greeting\n");
    acc := acc + "- Greeting\n";
    LineFeedsConcat(acc, "- Email body\n");
    acc := acc + "- Email body\n";
    LineFeedsConcat(acc, "- Proper closing\n");
    acc := acc + "- Proper closing\n";
    LineFeedsConcat(acc, "\n");
    acc := acc + "\n";
    assert acc == Instructions;
    LineFeedsEscapable(Instructions);
  }

  /** The control characters of the prompt are those of the tone and the content, plus
      the line feeds of the instruction block and the content marker. */
  lemma PromptControls(req: EmailRequest)
    ensures EscapableControls(PromptOf(req))
        <==> EscapableControls(req.emailContent) && (HasTone(req) ==> EscapableControls(req.tone.value))
  {
    InstructionsEscapable();
    MarkerEscapable();
    ToneClauseControls(req);
    EscapableConcat(ContentMarker, req.emailContent);
    EscapableConcat(ToneClause(req), ContentMarker + req.emailContent);
    EscapableConcat(Instructions, ToneClause(req) + (ContentMarker + req.emailContent));
  }

  lemma MarkerEscapable()
    ensures EscapableControls(ContentMarker)
  {
    EscapableByIndex(ContentMarker);
  }

  lemma ToneClauseControls(req: EmailRequest)
    ensures EscapableControls(ToneClause(req)) <==> (HasTone(req) ==> EscapableControls(req.tone.value))
  {
    if HasTone(req) {
      EscapableByIndex(ToneOpening);
      EscapableByIndex(ToneClosing);
      EscapableConcat(ToneOpening, req.tone.value);
      EscapableConcat(ToneOpening + req.tone.value, ToneClosing);
    }
  }

  /** What a JSON parser reads as the `text` value of the body is exactly the prompt, and
      the value ends where the fixed tail begins; it refuses the body exactly when the
      content or the tone holds a control character other than line feed and carriage
      return, which the escaper leaves raw. */
  lemma TextValueIsPrompt(req: EmailRequest)
    ensures ReadString(BodyOf(req)[|EnvelopeHead|..])
         == if EscapableControls(req.emailContent) && (HasTone(req) ==> EscapableControls(req.tone.value))
            then Some((PromptOf(req), |BodyOf(req)| - |EnvelopeHead| - |EnvelopeTail|))
            else None
  {
    var p := PromptOf(req);
    var rest := EnvelopeTail[1..];
    assert EnvelopeTail == "\"" + rest;
    assert BodyOf(req)[|EnvelopeHead|..] == EscapeJson(p) + "\"" + rest;
    ReadEscapeJson(p, rest);
    PromptControls(req);
  }
}
