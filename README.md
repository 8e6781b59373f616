# Career helper utilities: a Dafny model

This project models the string handling in `utils.py` of a Streamlit career-guidance app.
The app sends prompts to a hosted language model (Groq) and post-processes the replies.
Three pieces of the module have behaviour of their own, and they are modelled here:

- **The resource-line parser** in `get_learning_resources`. The reply is cut into lines at `"\n"`.
  Lines that are blank after `strip()` are skipped. Every other line is split on `" - "`.
  The line becomes a `{title, link}` resource, both parts stripped, exactly when the split gives two pieces.
  Every other line is dropped.
- **The page-text joiner** `extract_text_from_pdf`. Each truthy page text is appended with a `"\n"`.
  The accumulated text is then stripped.
- **The five prompt templates** and the `.strip()` that four of the helpers apply to the reply.

Python's `str` semantics are modelled explicitly in module `PyStr`:
- `str.isspace` (the full set of characters `strip()` removes);
- `strip`, `find`, `split` and `count` for a non-empty separator;
- `sep.join`.

`split` cuts at the leftmost occurrence, left to right and without overlap, and keeps empty pieces.
So the line `" - - "` splits into `["", "- "]` and yields the resource `("", "-")`.

Files and modules:
- `wrappers.dfy` (`Wrappers`): `Option`, and the values present in a sequence of options with the positions they come from.
- `pystr.dfy` (`PyStr`): Python string operations and their laws.
- `prompts.dfy` (`Prompts`): the five f-string templates, each with a reader that recovers its fields.
- `resources.dfy` (`Resources`): the line parser. It has a specification function (`ParseReply`) and the loop `ParseResources` proved against it.
- `pdf_text.dfy` (`PdfText`): the page joiner. `ExtractText` is the loop, proved against `Strip(Join(PageTexts(pages), "\n"))`.
- `completions.dfy` (`Completions`): the five helpers. Each builds one chat request: a single user message, model `llama3-8b-8192`, temperature 0.7. The remote model is the parameter `complete: Request -> string`.

The code does not do some things a reader might expect of such a parser, and the model follows the code:
- it does not attempt a JSON parse;
- it makes no fallback entry or synthesised search link for a line without `" - "`;
- it does not check that a link starts with `http`;
- it returns `""` rather than a sentinel message when no page has text.

## Model

| member | source | states |
|---|---|---|
| PyStr.TrimLeft | utils.py:22 | the result is a suffix of the input, everything removed is whitespace, and it does not start with whitespace |
| PyStr.TrimRight | utils.py:22 | the result is a prefix of the input, everything removed is whitespace, and it does not end with whitespace |
| PyStr.Strip | utils.py:64 | `strip()` leaves no whitespace at either end, returns a piece of the input with only whitespace around it, and is empty exactly when the input is all whitespace (so `if line.strip():` fails exactly on blank lines) |
| PyStr.StripUnique | utils.py:67 | those properties determine `strip()`: any whitespace-free-at-the-ends string surrounded by whitespace strips to itself |
| PyStr.StripFixpoint | utils.py:48 | `strip()` leaves a string unchanged exactly when it has no whitespace at its ends |
| PyStr.StripIdempotent | utils.py:48 | stripping twice is stripping once |
| PyStr.StripPadded | utils.py:21-22 | whitespace added at either end does not change what `strip()` returns |
| PyStr.StripTrailing | utils.py:21-22 | whitespace appended at the end does not change what `strip()` returns |
| PyStr.Find | utils.py:65 | the separator occurs at the returned index and nowhere before it; None means it occurs nowhere |
| PyStr.Split | utils.py:63-65 | `split(sep)` gives at least one piece, no piece contains the separator, joining the pieces with the separator gives back the input, and every cut is at the leftmost occurrence in what remains (each piece but the last, followed by the separator, has its first occurrence right after the piece) |
| PyStr.CountFind | utils.py:65-66 | non-overlapping counting restarts after the leftmost occurrence, as splitting does |
| PyStr.SplitCount | utils.py:65-66 | `len(s.split(sep)) == s.count(sep) + 1` |
| PyStr.SplitTwo | utils.py:65-67 | a split gives exactly two pieces exactly when the separator counts once; the pieces are then what precedes and follows its leftmost occurrence |
| PyStr.InfixFree | utils.py:65-67 | a piece of a string without the separator is without it too |
| PyStr.StripFree | utils.py:67 | stripping a string without the separator gives a string without it |
| PyStr.SplitCharConcat | utils.py:63 | splitting on one character distributes over a concatenation with that character at the seam |
| PyStr.SplitJoinChar | utils.py:63 | for a one-character separator, splitting undoes joining when no piece holds the separator |
| PyStr.JoinAppend | utils.py:21 | joining one more piece appends the separator and the piece |
| PyStr.JoinStripped | utils.py:21-22 | joining non-empty pieces with no whitespace at their ends gives a string with none at its ends |
| Prompts.Unfill1Fill1 | utils.py:55 | reading the field back from a one-field template succeeds with field x exactly when the text is the template filled with x |
| Prompts.Unfill2Fill2 | utils.py:41 | given the first field's length, reading both fields back succeeds with (x, y) exactly when the text is the template filled with x then y |
| Prompts.DomainPrompt | utils.py:41 | the domain prompt is non-empty and holds skills, then interests, verbatim |
| Prompts.ResourcesPrompt | utils.py:55 | the resources prompt is non-empty and holds the domain verbatim, recoverable from the prompt alone |
| Prompts.GuidePrompt | utils.py:75 | the guide prompt is non-empty and holds the job title verbatim, recoverable from the prompt alone |
| Prompts.SkillGapPrompt | utils.py:83-88 | the skill-gap prompt is non-empty and holds current_skills first, then target_job, although the parameters come in the other order |
| Prompts.ResumePrompt | utils.py:96-101 | the resume prompt is non-empty and holds the job description first, then the resume text, which ends the prompt |
| Prompts.DomainPromptText | utils.py:41 | the domain prompt is the f-string text with skills and interests substituted |
| Prompts.ResourcesPromptText | utils.py:55 | the resources prompt is the f-string text with the domain substituted |
| Prompts.GuidePromptText | utils.py:75 | the guide prompt is the f-string text with the job title substituted |
| Prompts.SkillGapPromptText | utils.py:88 | the skill-gap prompt is the f-string text with current_skills, then target_job, substituted |
| Prompts.ResumePromptText | utils.py:101 | the resume prompt is the f-string text with the job description, then the resume text, substituted |
| Prompts.DomainPromptAmbiguous | utils.py:41 | fields are substituted without escaping: moving `" and interests: "` and the text after it from one field into the other gives a different (skills, interests) pair and the same prompt |
| Resources.ParseLine | utils.py:64-67 | a line that gives a resource is not blank, and its title and link have no whitespace at their ends |
| Resources.ParseLineSpec | utils.py:64-67 | a line gives a resource exactly when `" - "` counts once in it; title and link are the stripped text before and after the leftmost `" - "`; both are clean; a blank line gives nothing |
| Resources.ParseLineSingleLine | utils.py:63-67 | a line without a line break gives a resource whose title and link hold no line break |
| Resources.NoSeparatorDropped | utils.py:65-66 | a line without `" - "` is dropped, with no fallback entry |
| Resources.EmptyTitle | utils.py:65-67 | `" - "` followed by a link that holds no `" - "` gives the title `""` and the stripped link |
| Resources.SeparatorLine | utils.py:64-66 | a line in which `" - "` counts once is not blank and splits into the text before and after its leftmost `" - "` |
| Wrappers.PositionsSpec | utils.py:62-68 | keeping the present values keeps their order and drops only absent values |
| Wrappers.SomesAppend | utils.py:62-68 | keeping the present values of a concatenation keeps those of each part in turn |
| Resources.ParseLines | utils.py:62-68 | at most one resource per line |
| Resources.LineOrder | utils.py:62-68 | resources come in line order; each comes from a line that parses to it, every line that parses contributes one, and every resource is clean |
| Resources.ParseReply | utils.py:62-68 | at most one resource per line of the reply |
| Resources.ParseResources | utils.py:62-68 | the loop returns the parse of the reply, never fails, yields at most one resource per line (newline count + 1) and only clean resources whose fields hold no line break |
| Resources.ParseReplyBounds | utils.py:62-68 | the parse of a reply has at most newline count + 1 resources, all clean and with no line break in either field |
| Resources.ParseLinesAppend | utils.py:63-67 | parsing concatenated line lists parses each list in turn |
| Resources.ParseReplyConcat | utils.py:63 | two replies joined by a line break parse to the first's resources followed by the second's |
| Resources.ParseReplyOfLines | utils.py:63 | a reply made of newline-free lines parses line by line |
| PdfText.HasText | utils.py:20 | defines the truthiness test `if page_text:`: false exactly for None and `""` (a definition, not a derived property) |
| PdfText.PageTexts | utils.py:18-21 | at most one text per page, none empty, and none at all exactly when no page has truthy text |
| PdfText.PageTextsSomes | utils.py:18-21 | the page texts are the values kept, page by page, from the truthy pages |
| PdfText.PageOrder | utils.py:18-21 | the page texts keep page order: each comes from a page with that truthy text, the source pages increase, and every page with truthy text contributes one |
| PdfText.Terminated | utils.py:17-21 | the accumulator is empty exactly when no text was appended, and otherwise ends with a line break |
| PdfText.TerminatedJoin | utils.py:17-21 | the accumulator is the page texts joined by line breaks, plus one final line break |
| PdfText.StripTerminated | utils.py:21-22 | stripping the accumulator is stripping the joined page texts |
| PdfText.ExtractText | utils.py:15-22 | the loop returns the truthy page texts, in page order and separated by line breaks, then stripped; the result has no whitespace at its ends; with no page text it is "" |
| PdfText.PageTextsStripped | utils.py:18-21 | page texts without whitespace at their ends are kept that way |
| PdfText.CleanPagesJoined | utils.py:17-22 | when no page text has whitespace at its ends, the result is exactly the page texts joined by single line breaks |
| Completions.UserRequest | utils.py:42-46 | the request names model `"llama3-8b-8192"`, holds exactly one message, a user message whose content is the prompt, and has temperature 0.7; it is well formed exactly when the prompt is non-empty |
| Completions.RequestsWellFormed | utils.py:42-46 | every helper sends one non-empty user message with a temperature in [0, 1] |
| Completions.Answer | utils.py:48 | the returned text has no whitespace at its ends, stripping it again changes nothing, and it is the reply with only whitespace removed around it |
| Completions.GetDomainRecommendation | utils.py:36-48 | the stripped reply to the domain prompt; stripping it again changes nothing |
| Completions.GetJobPreparationGuide | utils.py:70-81 | the stripped reply to the guide prompt; stripping it again changes nothing |
| Completions.GetSkillGap | utils.py:83-94 | the stripped reply to the skill-gap prompt; stripping it again changes nothing |
| Completions.OptimizeResume | utils.py:96-107 | the stripped reply to the resume prompt; stripping it again changes nothing |
| Completions.GetLearningResources | utils.py:50-68 | the parse of the unstripped reply to the resources prompt, with at most one resource per reply line |

## Left out

- `app.py`: Streamlit page layout, widgets and navigation; it has no logic of its own.
- `get_groq_client` (utils.py:8-12): the secret lookup and client construction. A missing key raises in Python; that error path is not modelled.
- The chat-completion call. The remote model is the function parameter `complete`. So the model treats the reply as a deterministic function of the request; the real service samples at temperature 0.7. Network and service errors, which propagate as exceptions, are not modelled.
- Reading `response.choices[0].message["content"]` is taken to always succeed.
- `PdfReader` page decoding (utils.py:16, 19): a foreign library. Its output is the input sequence of optional page texts; `None` and `""` are both falsy.
- `create_resume_pdf` (utils.py:25-33): FPDF layout, page breaks and file output.
- The f-string `str()` conversion of fields: all fields are modelled as strings, which is what the app passes.
- Recovering both fields of a two-field prompt needs the first field's length. A field may itself contain the text between the fields (see `Prompts.DomainPromptAmbiguous`).
