# Email reply request builder

A Dafny model of the string core of `EmailService` from the email-assistant backend.
The service turns an `EmailRequest` (email content plus an optional tone) into a prompt,
escapes the prompt for a JSON string literal, and places it in a fixed JSON request
envelope. That body is then posted to a generative-language API.

The model has one module per concern:

- `Wrappers`: `Option`. `None` stands for a Java `null`.
- `JavaStrings`: the library operations the code depends on.
  - `Replace` is `String.replace` with literal arguments: left to right, matches do not overlap, inserted text is not searched again.
  - `Format` is `String.format` with the single string argument of the request template.
- `JsonEscape`: `escapeJson`, written exactly as the source writes it, as four `Replace` passes.
  - `EscapeMap` is a single-pass, per-character reference escape.
  - `Unescape` is its inverse.
  - The module also holds the lemmas connecting the three.
- `JsonString`: a reader for the inside of a JSON string literal, following section 7 of RFC 8259. It says what a conforming parser reads as the `text` value.
- `Prompt`: the `EmailRequest` datatype and `buildPrompt`.
  - `BuildPrompt` is a method that appends to an accumulator step by step, as the `StringBuilder` code does.
  - `PromptOf` is the function that specifies it.
- `RequestBody`: the request-body lines of `generateEmailReply`. The prompt is built, escaped, then substituted into the text-block template.

Behaviour of the code that the model keeps as written:

- The tone clause is `"Use a" + tone + " tone "`, with no space after "a".
- The content marker is spelled `"orginal email: \n"`, as in the code.
- `escapeJson` escapes only backslash, quotation mark, line feed and carriage return. Every other control character, a tab for instance, is left raw. RFC 8259 forbids raw control characters inside a string.
  - `JsonEscape.ReadEscapeJson` and `RequestBody.TextValueIsPrompt` state exactly when a conforming parser accepts the `text` value, in both directions.
  - It is accepted exactly when the content and the tone hold no control character other than line feed and carriage return. In that case it reads back as the prompt.
- The same prompt can come from two different requests, because a tone may itself contain `" tone orginal email: \n"` (`Prompt.PromptNotInjective`). For a fixed tone, the prompt determines the content.

## Model

| member | source | states |
|---|---|---|
| JavaStrings.ReplaceOneChar | demo/src/main/java/com/email/demo/EmailService.java:54-58 | `replace` with a one-character literal target is exactly the per-character substitution of that character |
| JavaStrings.FormatOneSlot | demo/src/main/java/com/email/demo/EmailService.java:28-39 | formatting a template whose only `%` is one `%s` gives the template with the argument inserted verbatim; a `%` inside the argument is not interpreted |
| JsonEscape.EscapeJsonIsPerCharacter | demo/src/main/java/com/email/demo/EmailService.java:53-59 | the four sequential `replace` passes equal one per-character map: backslash, quotation mark, LF and CR become two-character escapes, everything else stays |
| JsonEscape.EscapeJsonExample | demo/src/main/java/com/email/demo/EmailService.java:53-59 | `a"b\nc` escapes to `a\"b\nc` (an escaped quote and backslash-n, not a line feed) |
| JsonEscape.UnescapeEscapeJson | demo/src/main/java/com/email/demo/EmailService.java:53-59 | decoding the four escapes in the output gives the input back |
| JsonEscape.EscapeJsonOfUnescape | demo/src/main/java/com/email/demo/EmailService.java:53-59 | every text the decoder accepts is the escaped form of what it decodes to, so the escaper is a bijection onto the decodable texts |
| JsonEscape.EscapeJsonInjective | demo/src/main/java/com/email/demo/EmailService.java:53-59 | different inputs never escape to the same output |
| JsonEscape.EscapeJsonLength | demo/src/main/java/com/email/demo/EmailService.java:54-58 | the output length is the input length plus the number of backslash, quotation mark, LF and CR characters |
| JsonEscape.EscapeJsonUnchanged | demo/src/main/java/com/email/demo/EmailService.java:54-58 | the output equals the input if and only if the input holds none of the four characters |
| JsonEscape.EscapeJsonNoLineBreaks | demo/src/main/java/com/email/demo/EmailService.java:57-58 | no raw LF or CR appears in the output |
| JsonEscape.EscapeJsonQuotesEscaped | demo/src/main/java/com/email/demo/EmailService.java:55-56 | every quotation mark in the output follows an odd run of backslashes, so it is escaped by a backslash that is not itself escaped; the output never ends inside an escape |
| JsonEscape.ReadEscapeJson | demo/src/main/java/com/email/demo/EmailService.java:53-59 | a JSON string reader fed the output and a closing quote returns exactly the input and stops at that quote; it fails if and only if the input has a control character other than LF and CR |
| Prompt.BuildPrompt | demo/src/main/java/com/email/demo/EmailService.java:77-104 | the appended text is the instruction block, then the tone clause when a tone is given, then the marker and the content |
| Prompt.PromptStartsWithInstructions | demo/src/main/java/com/email/demo/EmailService.java:79-97 | every prompt starts with the fixed instruction block, which ends with "- Proper closing" and a blank line |
| Prompt.PromptAfterInstructions | demo/src/main/java/com/email/demo/EmailService.java:98-101 | with a non-null, non-empty tone, the block is followed by `"Use a" + tone + " tone "`, then the marker and the content; otherwise it is followed directly by the marker and the content |
| Prompt.ToneClauseIffTone | demo/src/main/java/com/email/demo/EmailService.java:98-100 | the text after the block starts with "Use a" if and only if a non-empty tone was given |
| Prompt.PromptEndsWithContent | demo/src/main/java/com/email/demo/EmailService.java:101 | every prompt ends with `"orginal email: \n"` followed by the content, verbatim and unescaped |
| Prompt.PromptDeterminesContent | demo/src/main/java/com/email/demo/EmailService.java:98-101 | two requests with the same tone and the same prompt are the same request |
| Prompt.PromptNotInjective | demo/src/main/java/com/email/demo/EmailService.java:99-101 | for any non-empty tone x and any y, two different requests render the same prompt, because a tone can hold the marker |
| RequestBody.TemplateHasOneSlot | demo/src/main/java/com/email/demo/EmailService.java:28-39 | the text block is the fixed envelope head, one `%s`, then the fixed tail, and neither part contains a `%` |
| RequestBody.GenerateRequestBody | demo/src/main/java/com/email/demo/EmailService.java:26-39 | the body is the envelope head, then `escapeJson(buildPrompt(req))`, then the envelope tail; escaping happens after the prompt is built |
| RequestBody.EnvelopeIsFixed | demo/src/main/java/com/email/demo/EmailService.java:28-39 | apart from the escaped prompt between head and tail, the body is the same for every request |
| RequestBody.BodyDeterminesPrompt | demo/src/main/java/com/email/demo/EmailService.java:26-39 | equal bodies come from equal prompts |
| RequestBody.InstructionsEscapable | demo/src/main/java/com/email/demo/EmailService.java:79-97 | the instruction block holds no control character other than line feeds, in particular no carriage return, so it is also free of the control characters the escaper leaves raw |
| RequestBody.PromptControls | demo/src/main/java/com/email/demo/EmailService.java:77-101 | the prompt is free of control characters other than LF and CR exactly when the content, and the tone if used, are |
| RequestBody.TextValueIsPrompt | demo/src/main/java/com/email/demo/EmailService.java:26-39 | a JSON parser reads the body's `text` value as exactly the prompt, ending where the fixed tail begins, if and only if the content and tone have no control character other than LF and CR |

## Left out

- The constructor's WebClient and configuration wiring (demo/src/main/java/com/email/demo/EmailService.java:15-20): framework setup and external configuration.
- The HTTP POST with its headers, `retrieve`, `bodyToMono` and `block` (demo/src/main/java/com/email/demo/EmailService.java:41-48), and the final return (demo/src/main/java/com/email/demo/EmailService.java:50): network I/O and reactive blocking.
- `extractResponseContent` (demo/src/main/java/com/email/demo/EmailService.java:62-75): it relies on the JSON library's `readTree`, `path`, `get` and `asText`, whose behaviour on missing fields is not part of this model.
- `String.format`: only `%s` and `%%` are modelled. Any other conversion gives `None`, where Java throws or formats differently (`%n`, `%b`, `%S`, widths and flags). The template uses only `%s`.
- Java strings are sequences of UTF-16 code units. Here a `char` is a Unicode scalar value, so unpaired surrogates cannot be represented.
- `JsonString.ReadString` refuses a `\u` escape of a surrogate: pairing surrogates is not modelled. The escaper never emits `\u`.
- `getEmailContent()` returning `null` is not modelled: the content is always a string. Java would append the text "null".
- `getTone()` is treated as a plain getter that returns the same value on each of its three calls.
