# Health-care chatbot: section formatting and chat controller

This project models the two pieces of logic in the health-care chatbot that
do not depend on the language model.

- **The backend post-processing in app.py.**
  - `detect_requested_sections` decides which of the four answer sections
    (Definition, Symptoms, Prevention, Medical Suggestions) a user message
    asks for, by keyword.
  - `format_response` pulls each `**Title**` section out of the model's raw
    answer with a regular expression and drops empty ones. It keeps the
    requested sections (all of them when none was requested) and re-emits the
    survivors in canonical order as `**Title**\n<body>\n` blocks separated by
    a blank line.
- **The browser controller in static/js/script.js.**
  - It keeps a log of rendered messages, a message counter, the typing
    indicator, the welcome panel and the input field.
  - Sending trims the input, appends the user message and hands the payload
    to the network.
  - When the request settles, one bot message is appended: the reply, a fixed
    error text, or a fixed connection text.
  - Clearing the chat, suggestions and the Enter key are modelled as well.

Modules:

- `Wrappers`: `Option`.
- `Text`:
  - Python's and JavaScript's whitespace sets and trimming;
  - ASCII lower-casing;
  - substring search.
- `Sections`:
  - `SECTION_ORDER` and the keyword table;
  - the loop of `detect_requested_sections` (`DetectRequestedSections`), proved equal to a declarative specification (`RequestedSections`).
- `Format`:
  - the regular-expression search, modelled as the leftmost case-insensitive header, a greedy whitespace run, and a lazy group ending at the first position where the lookahead succeeds;
  - the extraction loop (`ExtractSections`);
  - the selection, the blocks and the final join-and-strip (`FormatResponse`), proved equal to `Render(Emitted(text, requested))`.
- `Chat`: the class `ChatSession`, one method per handler of the script, with the invariant `Consistent()` that every entry point preserves.

## Model

| member | source | states |
|---|---|---|
| Sections.Restrict | app.py:98 | The list comprehension keeps exactly the elements of `order` that are in `keep`. They stay in `order`'s order (a subsequence) and have no duplicates when `order` has none. |
| Sections.RequestedSections | app.py:66-81 | The detected sections have no duplicates and form a subsequence of `SECTION_ORDER`. A section is detected iff some keyword-table entry for it has its keyword in the lower-cased message. |
| Sections.DetectRequestedSections | app.py:66-81 | The keyword loop, with its `section not in requested` guard, returns exactly `RequestedSections(message)`. In particular it returns the sections in canonical order, not in keyword order. |
| Sections.RestrictNone | app.py:98 | Restricting to a set that shares nothing with `order` gives the empty list. |
| Sections.SectionOrderDistinct | app.py:58-63 | The four canonical titles are distinct. |
| Sections.MentionedByAppend | app.py:78-79 | Scanning one more keyword adds its section iff the keyword occurs in the lower-cased message. |
| Sections.MentionedByWithin | app.py:78-79 | Every section mentioned through a list of keywords is the section of one of them. |
| Sections.RestrictExtend | app.py:78-80 | Adding a section that comes after every kept section appends it to the restriction. This is the step that lets `append` build the canonical order. |
| Sections.KeywordsFollowOrder | app.py:70-76 | The keyword table is sorted by section in `SECTION_ORDER`. |
| Sections.DetectStep | app.py:78-80 | One loop turn preserves the invariant "requested = canonical restriction to the sections mentioned so far". |
| Sections.MedicalSuggestionImpliesSuggestion | app.py:74-75 | Any message containing "medical suggestion" contains "suggestion". |
| Sections.AsksSingle | app.py:70-76 | A section named by a single table entry is asked for iff that entry's keyword occurs. |
| Sections.DetectionByKeyword | app.py:68-80 | Per section: Definition iff "definition", Symptoms iff "symptom", Prevention iff "prevention", Medical Suggestions iff "suggestion" occurs in the lower-cased message. |
| Sections.DetectionIgnoresCase | app.py:68 | A message and its lower-cased form ask for the same sections. |
| Sections.SubsequenceTransitive | app.py:97-106 | The subsequence relation is transitive. It is used to show that the emitted titles follow `SECTION_ORDER`. |
| Sections.SubsequenceReflexive | app.py:100 | `SECTION_ORDER` is a subsequence of itself (the unrequested case). |
| Sections.SubsequenceNoDuplicates | app.py:102-106 | A subsequence of a duplicate-free list is duplicate-free and draws its elements from it. |
| Format.FindFrom | app.py:91-92 | A position found is at or after `from` and leaves room for the whole header in the text. |
| Format.EqualsIgnoringCaseIff | app.py:92 | Case-insensitive equality holds iff the strings have the same length and agree character by character after lower-casing. |
| Format.FindFromSpec | app.py:91-92 | What is found is a case-insensitive match of the header, and no match lies between `from` and it. When nothing is found, no match lies anywhere from `from` on. |
| Format.SkipSpace | app.py:91 | The greedy `\s*` ends inside the text, at or after where it starts. |
| Format.SkipSpaceSpec | app.py:91 | The greedy `\s*` consumes a maximal run of Python whitespace. |
| Format.LazyEnd | app.py:91 | The lazy group ends inside the text, at or after where it starts. |
| Format.LazyEndSpec | app.py:91 | The lazy group ends at the first position where `(?=\n\*\*\|$)` succeeds. That is a `\n**`, the end of the text, or the position just before a final newline. |
| Format.SectionMatchShape | app.py:91-92 | The search fails iff the header occurs nowhere. Otherwise the group starts with a non-space character and never contains `\n**`. |
| Format.SectionMatchNoneIff | app.py:92-93 | `re.search` returns no match iff the header occurs nowhere in the text. |
| Format.GroupShape | app.py:91 | A group captured after any position starts after all whitespace and contains no `\n**`. |
| Format.NoHeaderBeforeStop | app.py:91 | A lazily matched group contains no `\n**`. |
| Format.ContentShape | app.py:91-93 | The content is "" when the header is missing. It has no whitespace at either end and never contains `\n**`. |
| Format.StripKeepsShape | app.py:93 | `.strip()` leaves either nothing or a string with no whitespace at either end, and introduces no `\n**` that the group did not contain. |
| Format.ContainsSlice | app.py:93 | Whatever a slice of a string contains, the whole string contains. |
| Format.EmptySectionCapturesNextHeader | app.py:91-93 | If a header is directly followed by `\n**`, its content is not empty: it is the stripped text from the next header's `**` up to the following `\n**` or the end, and it starts with `**`. |
| Format.CaptureAfterNewline | app.py:91-93 | If the text at a position is `\n**`, the whitespace run is only that newline, and the stripped group captured after it starts with `**`. |
| Format.GroupAfterNewlineHeader | app.py:91 | If the text at a position is `\n**`, the whitespace run is only that newline, and the lookahead fails on both `*`, so the lazy group starts with `**`. |
| Format.StripKeepsLeadingStars | app.py:93 | Stripping a string that starts with `**` keeps the `**` in front. |
| Format.ExtractedFromSpec | app.py:89-95 | After visiting some titles, the dictionary holds exactly the visited titles whose content is non-empty, each mapped to that content. |
| Format.ExtractSections | app.py:89-95 | The extraction loop builds exactly `Extracted(text)`. |
| Format.Titles | app.py:102-106 | The titles of a section list, position by position. |
| Format.EmittedFrom | app.py:102-106 | The sections for the selected titles that are in `extracted`, in the given order. Each body is the stripped value. |
| Format.EmittedSections | app.py:93-106 | The emitted titles are exactly the canonical sections with non-empty content that were requested (all of them when the request is empty), each once and in `SECTION_ORDER`. Each body is the section's non-empty content. |
| Format.EmittedMembers | app.py:93-106 | The emitted titles are exactly the canonical sections with non-empty content that were requested, or all of them when the request is empty. |
| Format.EmittedOrder | app.py:98-106 | The emitted titles follow `SECTION_ORDER` and repeat nothing. |
| Format.EmittedContents | app.py:93-103 | Each emitted body is that section's content, and it is not empty. |
| Format.EmittedIgnoresRequestOrder | app.py:97-100 | Only the set of requested titles matters, not their order or repetition. |
| Format.Blocks | app.py:102-106 | One block per emitted section. |
| Format.RenderShape | app.py:103-108 | The joined blocks are empty iff there are no sections. Otherwise they start with `**` and end with one newline after a non-space character. |
| Format.BlockShape | app.py:103 | A block with a stripped body is at least six characters long, starts with `**`, and ends with a newline right after a non-space character. |
| Format.StripRestoresLayout | app.py:108 | `strip()` of the joined blocks removes only the final newline, and the conditional `"\n"` puts it back. |
| Format.TrimDropsFinalNewline | app.py:108 | `strip()` of a string with a non-space start and a single final newline after a non-space character removes only that newline. |
| Format.ExtractedTrimmed | app.py:89-95 | The extracted values are non-empty and already stripped. The dictionary holds exactly the canonical titles with non-empty content. |
| Format.EmittedBodies | app.py:103 | The second `.strip()` is a no-op: each body equals the extracted value. |
| Format.EmittedTrimmed | app.py:103 | The emitted bodies are non-empty and stripped. |
| Format.FormatResponse | app.py:84-108 | `format_response` returns exactly the emitted sections rendered as `**Title**\n<body>\n` blocks separated by `\n`. |
| Format.FormattedShape | app.py:102-108 | The output is "" iff nothing is emitted. Otherwise it starts with `**` and ends with exactly one newline. |
| Text.TrimIsSlice | app.py:93 | The trim is the middle slice of the string between two runs of whitespace. |
| Text.TrimStartSpec | static/js/script.js:73 | Trimming the start keeps a suffix, drops only whitespace, and stops at the first character that is not whitespace. |
| Text.TrimEndSpec | app.py:93 | Trimming the end keeps a prefix, drops only whitespace, and stops at the last character that is not whitespace. |
| Text.TrimEnds | static/js/script.js:73 | What trimming leaves neither starts nor ends with whitespace. |
| Text.TrimFixedIff | static/js/script.js:73-83 | A string is its own trim iff it has no whitespace at either end. |
| Text.TrimOfTrimmed | app.py:103 | A string with no whitespace at its ends is its own trim. |
| Text.TrimIdempotent | app.py:103 | Trimming twice is trimming once. |
| Text.TrimEmptyIff | static/js/script.js:73-77 | The trim is empty iff the string is all whitespace: the blank-input test of `sendMessage`. |
| Text.LowerStr | app.py:68 | Lower-cases character by character and keeps the length. |
| Text.LowerStrIdempotent | app.py:68 | Lower-casing twice is lower-casing once. |
| Text.ContainsTransitive | app.py:79 | Whatever contains a string contains each of its substrings. |
| Text.SliceOfSlice | app.py:91 | A slice of a slice is a slice of the original. |
| Chat.ChatSession.constructor | static/js/script.js:1-2 | The page as loaded: empty log, counter 0, indicator hidden, welcome shown, and `Consistent()` holds. |
| Chat.ChatSession.AddMessage | static/js/script.js:5-30 | Appends exactly one message with the given author, text and time, and increments the counter. |
| Chat.ChatSession.ShowTypingIndicator | static/js/script.js:33-44 | Shows the typing indicator. |
| Chat.ChatSession.HideTypingIndicator | static/js/script.js:47-55 | Hides the typing indicator. |
| Chat.ChatSession.HideWelcome | static/js/script.js:58-68 | Hides the welcome panel. |
| Chat.ChatSession.SendMessage | static/js/script.js:71-95 | A blank (after `trim()`) input changes nothing and sends nothing. Otherwise the trimmed text is appended as one user message and becomes the payload; the input is cleared, the welcome hidden and the indicator shown. `Consistent()` is kept: the indicator shows only after a user message, user messages have no whitespace at either end, and no user message exists while the welcome panel shows. |
| Chat.ChatSession.Settle | static/js/script.js:97-112 | The indicator is hidden and exactly one bot message is appended. It is the reply when `success` holds, the fixed error text when it does not, and the fixed connection text when the request fails. Nothing else changes. |
| Chat.ChatSession.SendSuggestion | static/js/script.js:116-120 | The welcome panel is hidden even for blank text. Otherwise it behaves as `SendMessage` with the input set to the suggestion. |
| Chat.ChatSession.KeyPress | static/js/script.js:123-127 | Enter behaves as `SendMessage`; any other key changes nothing. |
| Chat.ChatSession.ClearChat | static/js/script.js:130-148 | Declined: the log, counter and indicator are unchanged. Confirmed: the log is the single fixed bot message, the counter is 1 and the indicator is hidden. The welcome panel and the input are untouched either way. |

## Left out

- Lower-casing and `re.IGNORECASE` are modelled for ASCII letters only. Python's full Unicode case mapping, which can change a string's length, is not modelled.
- The regular expression is modelled only for the one pattern shape the source builds. The titles contain no regex metacharacters, so the f-string interpolation needs no escaping.
- `Text.TrimStart`, `Text.TrimEnd`: characters are UTF-16 code units for JavaScript and code points for Python. Both are modelled as Dafny `char`.
- The Flask routes, the retrieval chain, the language model, `print` logging and the HTTP 500 path are left out. They are I/O or foreign code. The model starts from the answer text that `format_response` receives.
- `Chat.ChatSession.SendMessage`: `fetch`, the fixed URL, the headers and the JSON body are left out. The method returns the payload text instead. The settlement is delivered separately through `Settle`.
- The script posts JSON to `/chat` on port 5000, while app.py serves a form field on `/get`. That mismatch between the two files is outside both models.
- `Chat.ChatSession.Settle`: the response is reduced to the truthiness of `data.success` and the text of `data.response`. A non-string `response`, a missing `response` (rendered as "undefined") and HTTP status codes are not modelled.
- `Chat.ChatSession.AddMessage`: the time is an opaque string parameter, since the clock and the locale are I/O. The HTML markup, the avatars, `innerHTML` injection of the text and scrolling are not modelled.
- Several requests in flight at once are not modelled as a sequence of events. Each `Settle` stands for one callback, but which request it answers is not recorded.
- `Chat.ChatSession.ClearChat`: the confirmation dialog is the `confirmed` parameter. The welcome panel's visibility is kept as it was. The page markup is not part of this model, so whether the panel lives inside the cleared container is not captured.
- The `DOMContentLoaded` send-button animation, `console.error`, and the guards for missing page elements are left out. They change no modelled state.
