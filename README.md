# Telegram answer bot (bot.py), modelled in Dafny

`bot.py` is a one-shot bot. It reads the question queue `input.txt`, takes the first
question, and asks a language model for an answer through OpenRouter. It keeps the
answer only if the reply had status 200 and the text contains a Russian letter. It
then converts the answer into Telegram MarkdownV2, posts it to a channel, and, if
Telegram answered 200, rewrites `input.txt` without its first line.

This project models the self-contained logic of that run and proves what it does:

- `Text` (text.dfy): the Python string built-ins that the bot relies on. These are
  `str.strip()` with Python's whitespace set, `str.split('\n')`, `sep.join(...)`,
  `str.replace(old, new)` (leftmost, non-overlapping), and the
  "stripped non-blank lines" comprehension.
- `Markdown` (markdown.dfy): `escape_markdown` and `format_for_telegram`. The
  formatter is a method with a loop over the split lines, proved equal to the
  specification function `FormatSpec`.
- `Language` (language.dfy): `is_russian`, with `str.lower()` restricted to the
  characters that can lower-case to a Russian letter.
- `Pipeline` (pipeline.dfy): `read_queries`, the answer gate of `get_ai_response`, and
  one run of `main` as a `Bot` class. The class holds the lines of `input.txt`, and its
  `Step` method rewrites them.

What the proofs establish about the code as written:

- Escaping puts exactly one backslash before each of `` _*[]()~`>#+-=|{}.! `` and copies
  everything else. Removing those backslashes gives the input back. The backslash
  itself is never escaped.
- The two `replace` calls after escaping amount to "escape every reserved character
  except `*` and `_`". They cannot match across a backslash that came from the input.
  The number of `*` and of `_` is that of the input.
- After that escaping, every `.` and `-` in a line comes right after a backslash.
  So the numbered-list branch (`^\d+\.`) and the `-` alternative of the bullet branch
  never fire. Such lines pass through unchanged. Only the heading rule, the `•`/`→`
  bullet rule and the identity remain.
- In the whole message, every reserved character other than `*` and `_` comes right
  after a backslash. This is not a claim that Telegram accepts the message. A
  backslash from the input is not escaped, and `*`/`_` are not paired.
- The lines the formatter rewrites are exactly the non-blank lines of the answer,
  stripped, in order, each escaped except for `*` and `_`. The message is the
  `"\n\n"`-join of one non-empty, single-line paragraph per such line. Splitting it
  back at line breaks recovers exactly those paragraphs. On the sample answer
  `"Итог:\n1. Да\n- Нет"` the message is `*Итог:*`, `1\. Да` and `\- Нет`, separated
  by blank lines.
- The queue loses its first raw line only when a question was read, the reply passed
  the gate, and the post succeeded. In every other case it is unchanged. The line
  removed is the first line of the file, not the question processed. The two coincide
  exactly when that line is not blank. When the file starts with a blank line, the
  question stays first and the next run processes it again.

`bot.py` does not pair `*` or `_` in an answer. It rewrites `input.txt` in place, and
it handles one question per run.

## Model

| member | source | states |
|---|---|---|
| `Text.Strip` | bot.py:37 | `str.strip()`: the result is the slice of the line after its leading whitespace; everything cut off is whitespace; a non-empty result neither starts nor ends with whitespace; it is empty iff the line is all whitespace |
| `Text.StripIdempotent` | bot.py:37 | stripping a stripped line changes nothing |
| `Text.StripParts` | bot.py:37 | a line is the whitespace `strip()` removes at its front, then its strip, then the whitespace removed at its back |
| `Text.StripFrame` | bot.py:37 | whitespace on both sides of a part that neither starts nor ends with whitespace is exactly what `strip()` removes |
| `Text.JoinWith` | bot.py:50 | the definition of `sep.join(parts)`: the parts with the separator between neighbours |
| `Text.Split` | bot.py:36 | `split('\n')` always yields at least one piece |
| `Text.SplitLength` | bot.py:36 | `split('\n')` yields one more piece than there are line breaks |
| `Text.SplitPieceFree` | bot.py:36 | no piece of the split holds a line break |
| `Text.JoinSplit` | bot.py:36 | joining the pieces of the split with the separator gives back the text |
| `Text.Replace` | bot.py:33 | the definition of `str.replace`: scan from the left, replace each occurrence and continue after it, so occurrences never overlap |
| `Text.NonBlankStripped` | bot.py:56 | `[line.strip() for line in lines if line.strip()]`: no more results than lines, and no result is empty |
| `Text.NonBlankStrippedCons` | bot.py:56 | the result starts with what is kept of the first line |
| `Text.NonBlankStrippedFixed` | bot.py:56 | lines that are non-blank and already stripped all pass unchanged, so filtering the questions again changes nothing |
| `Text.NonBlankStrippedStripped` | bot.py:56 | every kept line is already stripped |
| `Text.NonBlankStrippedSnoc` | bot.py:36-39 | one more line adds its strip to the result when that strip is not empty, and nothing otherwise |
| `Text.NonBlankStrippedAppend` | bot.py:36-39 | the blank-line filter works line by line (distributes over concatenation) |
| `Text.NonBlankStrippedKeeps` | bot.py:36-39 | every line whose strip is non-empty is kept, stripped |
| `Text.NonBlankStrippedFrom` | bot.py:36-39 | every kept line is the strip of some input line |
| `Markdown.EscapeWith` | bot.py:22-25 | the definition of the escaping: a backslash before every character of the set, everything else copied, in order |
| `Markdown.EscapeMarkdown` | bot.py:22-25 | `escape_markdown` is the escaping with the 18 MarkdownV2 reserved characters |
| `Markdown.EscapeLength` | bot.py:22-25 | output length = input length + number of escaped characters |
| `Markdown.UnescapeEscape` | bot.py:22-25 | removing the inserted backslashes gives back the input (the escape set does not contain the backslash) |
| `Markdown.EscapeCount` | bot.py:25 | escaping only inserts backslashes: every other character occurs as often as in the input |
| `Markdown.EscapeGuards` | bot.py:24-25 | every escaped character of the output comes right after a backslash |
| `Markdown.Prepare` | bot.py:32-33 | the definition of the text the formatter splits: escape, then replace `\*` by `*` and `\_` by `_` |
| `Markdown.ReplaceUnescapes` | bot.py:33 | replacing `\c` by `c` (leftmost, non-overlapping) in an escaped text equals escaping without `c` |
| `Markdown.PrepareEscapesRest` | bot.py:32-33 | escape-then-two-replaces equals escaping every reserved character except `*` and `_` |
| `Markdown.PrepareKeepsText` | bot.py:32-33 | the counts of `*` and `_` are unchanged, and unescaping the rest gives the input back |
| `Markdown.LeadingDigits` | bot.py:43 | the leading digit run of a line: all digits, and the next character is not a digit |
| `Markdown.EndsWithColon` | bot.py:41 | `line.endswith(':')` |
| `Markdown.StartsNumbered` | bot.py:43 | `re.match(r'^\d+\.', line)`: one or more leading digits followed by a `.` |
| `Markdown.StartsBullet` | bot.py:45 | `line.startswith(('-', '•', '→'))` |
| `Markdown.FormatLine` | bot.py:41-46 | the line rule as written: a line ending in `:` is wrapped in `*`; else a numbered line gets `▪️ ` in front; else a bullet line becomes `• ` and its stripped rest; else it is unchanged |
| `Markdown.NumberedNeedsBareDot` | bot.py:43 | `^\d+\.` cannot match a line in which every `.` follows a backslash |
| `Markdown.DashNeedsBareDash` | bot.py:45 | a line in which every `-` follows a backslash does not start with `-` |
| `Markdown.FormatAll` | bot.py:35-48 | one rewritten line per kept line, each the line rule applied to it |
| `Markdown.FormatStep` | bot.py:36-48 | one loop iteration: a blank piece adds nothing, another piece adds its rewritten strip |
| `Markdown.FormatSpec` | bot.py:27-50 | the definition of the message: empty for an empty answer, else the rewritten lines of the prepared text joined by `"\n\n"` |
| `Markdown.FormatForTelegram` | bot.py:27-50 | the loop computes `FormatSpec`; empty input gives the empty message |
| `Markdown.PreparedLineGuarded` | bot.py:32-39 | in every stripped non-blank line, each reserved character other than `*`/`_` follows a backslash |
| `Markdown.EffectiveLineRule` | bot.py:32-46 | on the lines the formatter actually sees, the numbered branch and the `-` bullet never fire: the paragraph is the heading, the `•`/`→` bullet, or the line itself |
| `Markdown.ParagraphGuarded` | bot.py:41-46 | rewriting a line adds no unescaped reserved character other than `*`/`_` |
| `Markdown.MessageGuarded` | bot.py:27-50 | in the whole message, every reserved character other than `*`/`_` follows a backslash |
| `Markdown.EscapeEach` | bot.py:36 | every line escaped, one for one |
| `Markdown.EscapeAppend` | bot.py:25 | escaping works character by character: it distributes over concatenation |
| `Markdown.StripEscape` | bot.py:32-37 | stripping commutes with escaping when no escaped character is whitespace |
| `Markdown.SplitEscape` | bot.py:32-36 | splitting an escaped text at a separator that is neither escaped nor the backslash gives the escaped pieces of the text |
| `Markdown.NonBlankStrippedEscape` | bot.py:35-39 | dropping blank lines commutes with escaping every line |
| `Markdown.PreparedLinesOfInput` | bot.py:32-39 | the lines the formatter rewrites are the stripped non-blank lines of the answer, in order, each escaped except for `*` and `_` |
| `Markdown.ParagraphsAreLines` | bot.py:36-48 | no paragraph is empty and none contains a line break |
| `Markdown.SplitJoinParagraphs` | bot.py:50 | splitting a `"\n\n"`-join of non-empty single-line paragraphs at line breaks and dropping empty pieces gives the paragraphs back |
| `Markdown.MessageParagraphs` | bot.py:27-50 | the message reads back as exactly one paragraph per non-blank line of the answer, in order: paragraph k is the line rule applied to the k-th such line, stripped and escaped |
| `Markdown.ThreeLines` | bot.py:27-50 | an answer of three non-blank stripped lines gives the three rewritten escaped lines joined by blank lines |
| `Markdown.SampleLines` | bot.py:32-46 | the three sample lines are stripped already; after escaping, the heading is wrapped in `*` and the numbered and `-` lines come out unchanged |
| `Markdown.SampleAnswer` | bot.py:27-50 | the answer `"Итог:\n1. Да\n- Нет"` becomes `*Итог:*`, `1\. Да` and `\- Нет` joined by blank lines |
| `Language.Lower` | bot.py:64 | `str.lower()` on the characters that can become Russian letters: А–Я to а–я, Ё to ё, others unchanged |
| `Language.IsRussian` | bot.py:61-64 | the definition of `is_russian`: some character of the lower-cased text is in the 33-letter set |
| `Language.RussianLettersRange` | bot.py:63 | the 33-letter set is exactly а–я plus ё |
| `Language.LowerRussian` | bot.py:64 | a character lower-cases into the set iff it is a Russian letter of either case |
| `Language.IsRussianIff` | bot.py:61-64 | `is_russian` holds iff some character is a Russian letter (upper or lower case) |
| `Language.IsRussianExamples` | bot.py:61-64 | `""` and `"Hello"` are rejected, `"Привет"` is accepted |
| `Pipeline.ReadQueries` | bot.py:52-59 | an unreadable file gives `[]`; every question is non-empty and already stripped |
| `Pipeline.ReadQueriesExactly` | bot.py:56 | `x` is a question iff it is the non-empty strip of some line of the file |
| `Pipeline.AnswerOf` | bot.py:96-100 | the answer is kept iff the status is 200 and the text is Russian; a kept answer is the reply text and is never empty |
| `Pipeline.Bot.Step` | bot.py:135-157 | no questions, no answer, or failed send leave the file unchanged; a post happens iff there is a question, a kept answer and a successful send, and then the file loses its first raw line; the query is the first question and the message is `FormatSpec` of the answer |
| `Pipeline.QueryConsumedIff` | bot.py:140-155 | dropping the first raw line consumes the processed question iff that line is not blank; if it is blank the question list is unchanged |
| `Pipeline.BlankFirstLineKeepsQuestion` | bot.py:135-155 | for the file `["\n", "Что такое фотосинтез?\n"]` the question is the only one before and after the first line is dropped |
| `Pipeline.BlankFirstLineRun` | bot.py:135-157 | one run on that file with a Russian status-200 reply and a successful post: the question is posted, and the file left behind still has it as its only question, so the next run processes it again |

## Left out

- Environment loading, `Config` and `setup` (bot.py:7-20, 129-133): process configuration, outside the logic modelled.
- The HTTP requests, headers, JSON bodies and timeouts (bot.py:68-95, 106-123). The model's reply is the input `AiReply`: a status and text, or `RequestFailed` for any exception. Telegram's verdict is the input `delivered`.
- Opening, reading and rewriting `input.txt` (bot.py:55, 152-155). The file is the list of its lines, with `None` standing for a read failure. A crash or partial write during the rewrite is not modelled. Neither is a change to the file between the two reads in `main`.
- Console output and previews (bot.py:126-127, 137, 141, 145, 148, 151, 157): logging only.
- Whether Telegram accepts the message: the code neither pairs `*`/`_` nor escapes `\`, so no validity property is claimed.
- Markdown.StartsNumbered: `\d` is taken as the ASCII digits, not all Unicode decimal digits. The branch is unreachable for any digit class, because the character before the dot is a backslash.
- Language.Lower: only А–Я and Ё are lower-cased. No other character lower-cases to a Russian letter, so `is_russian` is unaffected.
