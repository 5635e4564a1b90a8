# Piper TTS server: text pipeline, request validation and audio sweep

A Dafny model of the core of `server.py`, the HTTP front end of a Piper
text-to-speech service. The model covers:

- **the text pipeline** applied to a request before it reaches the speech
  engine:
  - `clean_markdown` strips Markdown;
  - `process_emojis` turns emoji into sentence breaks;
  - `enhance_punctuation_pauses` spaces out punctuation, since the engine
    pauses longer on more spaces;
  - `is_question` and `enhance_questions` put an ellipsis before closing
    question marks;
- **the decisions of the `/synthesize` endpoint**, up to the point where
  the engine is started:
  - input validation, in the code's order;
  - the question flag and the voice preset it selects;
  - the model file for the language and the check that it exists;
- **one pass of the periodic sweep** that deletes generated `.mp3` files
  older than an hour.

Every Python `re.sub` is modelled as its own recursive function
`...From(s, i)` over the original text. Such a function does what Python
does:

- scan left to right;
- try the pattern at each index;
- after a match, resume right behind it.

Greedy runs are maximal, lazy `.*?` takes the first close, `.` stops at a line
feed, and `^` under `re.MULTILINE` means index 0 or just after a `\n`. `\s`
and `str.strip()` use Python's set of whitespace code points (`Chars.IsSpace`).

Each substitution is pinned down by four kinds of results:

- its contract says what the whole output keeps or loses;
- a match-step lemma (`...Match`) says what a match is replaced with and
  that the scan resumes right behind it;
- a copy-until lemma (`...Copies`) says that the text up to the next marker
  character is copied as it is;
- a substitution that rewrites runs of one character class is proved equal
  to `Chars.CollapseRuns`. This independent reference goes run by run: a
  maximal run at least a given length long is replaced, and every other
  character is kept.

Modules:

| file | module | models |
|---|---|---|
| chars.dfy | `Chars` | whitespace, runs, `strip()`, filtering a text by a character class |
| markdown.dfy | `Markdown` | `clean_markdown` |
| emojis.dfy | `Emojis` | `process_emojis` |
| prosody.dfy | `Prosody` | `enhance_punctuation_pauses` |
| questions.dfy | `Questions` | `is_question`, `enhance_questions` |
| synthesize.dfy | `Synthesize` | `LANGUAGE_MODELS` and the `/synthesize` endpoint up to the start of the engine |
| cleanup.dfy | `Cleanup` | one pass of `cleanup_old_files` |

Facts about the code that the model follows:

- **Space squeeze.** The comment at server.py:146 says "more than 4". The
  pattern `'   {2,}'` on line 147 is two spaces followed by a third space
  that `{2,}` repeats two or more times. It therefore matches runs of
  **four** or more spaces and replaces each with three (`Prosody.SqueezeFrom`,
  `Prosody.SqueezeRuns`).
- **Sweep errors.** The `try` at server.py:495-510 wraps the whole `for` loop,
  so the first failing file ends the pass.
- **Emoji ranges.** The last emoji range, U+24C2 to U+1F251, also contains
  CJK ideographs, kana, Hangul, fullwidth punctuation and the ideographic
  space U+3000. The model treats all of them as emoji, as the code does
  (`Emojis.EmojiIntervals`).
- **Placeholder.** `enhance_punctuation_pauses` hides each `...` as
  `___ELLIPSIS___` while it spaces out punctuation. A text that already
  holds `_` can forge or break a placeholder, so the round trip and the
  "only whitespace changes" results are stated for texts without `_`.
- **Refusal status.** Every refusal the model covers is raised with
  `status_code=400`. It reaches the client with that status: the inner `try`
  (server.py:328-483) catches only `TimeoutExpired` and `FileNotFoundError`,
  and the outer one re-raises `HTTPException` (server.py:485-486). The
  status is part of `Synthesize.Outcome.Rejected`.

## Model

| member | source | states |
|---|---|---|
| Chars.Strip | server.py:302 | `str.strip()`: the result is a contiguous slice of the input with no whitespace at either end, and everything cut off after it is whitespace |
| Chars.StripEmpty | server.py:284-288 | stripping leaves nothing exactly when the text is whitespace only (the test `not x or not x.strip()`) |
| Chars.StripSpoken | server.py:302 | stripping removes whitespace and nothing else |
| Markdown.FindClose | server.py:104-109 | the lazy `(.*?)` part finds the first closing marker, and every character before it is matched by the inner class; when it fails, every later closing marker has a character outside the inner class before it |
| Markdown.SpanAt | server.py:104-109 | an emphasis match at `i` is the opening marker, inner characters without the marker, and the closing marker; there is none exactly when `i` holds no opening marker or no closing marker is reachable through inner characters |
| Markdown.FindCloseFirst | server.py:104-109 | the lazy part does find a closing marker that only inner characters and no earlier closing marker precede; with the contract of `FindClose`, it finds exactly the first reachable one |
| Markdown.UnwrapFrom | server.py:104-109 | the four emphasis substitutions (`**`, `__`, `*`, `_`) remove marker characters and nothing else; the text is kept when it has no marker; where no span starts, the character is copied; where one starts, its inner text comes first, followed by what remains after the closing marker with deletions only |
| Markdown.UnwrapMatch | server.py:104-109 | a matched span is replaced by its inner text, and the scan resumes right behind the closing marker |
| Markdown.UnwrapCopies | server.py:104-109 | up to the next marker character, an emphasis substitution copies the text unchanged and goes on from there |
| Markdown.BoldWordUnwrapped | server.py:104 | "Hello **world**!" becomes "Hello world!" |
| Markdown.PlainEmphasisUnchanged | server.py:104-109 | text without `*` and `_` passes the four emphasis substitutions unchanged |
| Markdown.HeaderAt | server.py:112 | a header match is a line start, then one to six `#`, then a whitespace character; it ends where that whitespace run ends. There is none exactly when `i` is not at a line start or no whitespace follows one to six `#` |
| Markdown.HeadersFrom | server.py:112 | header removal deletes only `#` and whitespace characters; text without `#` is kept; where no header starts, the character is copied; where one starts, everything up to its end is dropped |
| Markdown.HeadersMatch | server.py:112 | a header match is deleted, and the scan resumes where its whitespace ends |
| Markdown.HeadersCopies | server.py:112 | up to the next `#`, header removal copies the text unchanged |
| Markdown.BlockAt | server.py:115 | a fenced block runs from a fence to the first fence after it; there is none exactly when `i` holds no fence or no fence follows |
| Markdown.CodeBlocksFrom | server.py:115 | fenced-block removal only deletes characters; text without backticks is kept; where a block starts, all of it is dropped |
| Markdown.CodeBlocksMatch | server.py:115 | a fenced block is deleted, and the scan resumes right behind its closing fence |
| Markdown.CodeBlocksCopies | server.py:115 | up to the next backtick, fenced-block removal copies the text unchanged |
| Markdown.CloseAfter | server.py:116-119 | a `[^c]+c` part matches up to the first `c`, with at least one other character before it; it fails exactly when the text ends, starts with `c`, or has no further `c` |
| Markdown.CodeSpanAt | server.py:116 | an inline-code match is a backtick, one or more other characters and the next backtick; there is none exactly when no such span starts at `i` |
| Markdown.InlineCodeFrom | server.py:116 | inline-code unwrapping removes backticks and nothing else; text without backticks is kept; where a span starts, its inner text comes first |
| Markdown.InlineCodeMatch | server.py:116 | an inline-code span is replaced by its text, and the scan resumes right behind the closing backtick |
| Markdown.InlineCodeCopies | server.py:116 | up to the next backtick, inline-code unwrapping copies the text unchanged |
| Markdown.LinkAt | server.py:119 | a link match is `[`, text without `]`, `](`, target without `)`, `)`, with both parts non-empty |
| Markdown.LinkAtComplete | server.py:119 | every text of that shape at `i` is found as a link, with the first `]` and the first `)` after it as its ends |
| Markdown.LinksFrom | server.py:119 | link rewriting only deletes characters; text without `[` is kept; where a link starts, its text comes first and the target is dropped |
| Markdown.LinksMatch | server.py:119 | a link is replaced by its text, and the scan resumes right behind the `)` that closes its target |
| Markdown.LinksCopies | server.py:119 | up to the next `[`, link rewriting copies the text unchanged |
| Markdown.BulletAt | server.py:122 | where `^[\*\-]\s+` under `re.MULTILINE` matches: at the start of a line, a `*` or `-` followed by a whitespace character (the match then runs to the end of that whitespace run, `Markdown.BulletsMatch`) |
| Markdown.BulletsFrom | server.py:122 | bullet removal deletes only `*`, `-` and whitespace characters; text without `*` and `-` is kept; where a bullet starts, the marker and the whitespace after it are dropped |
| Markdown.BulletsMatch | server.py:122 | a bullet marker and the whitespace after it are deleted, and the scan resumes behind that whitespace |
| Markdown.BulletsCopies | server.py:122 | up to the next `*` or `-`, bullet removal copies the text unchanged |
| Markdown.PlainStructureUnchanged | server.py:112-122 | text without `#`, backticks, `[`, `*` and `-` passes the header, code, link and bullet substitutions unchanged |
| Markdown.SubstitutionsDelete | server.py:104-122 | the nine Markdown substitutions before the whitespace collapse only delete characters |
| Markdown.SingleSpacesFrom | server.py:125 | after collapsing runs of two or more whitespace characters to one space, no two whitespace characters are adjacent |
| Markdown.SingleSpacesRuns | server.py:125 | the whitespace collapse equals the run-by-run reference: every maximal run of two or more whitespace characters becomes one space, and every other character is kept |
| Markdown.SingleSpacesSpoken | server.py:125 | collapsing whitespace changes only whitespace |
| Markdown.Substituted | server.py:104-125 | the ten substitutions of `clean_markdown` in the order of the code, before `strip()`; no two whitespace characters are left next to each other |
| Markdown.CleanMarkdown | server.py:101-127 | the cleaned text has no whitespace at either end and never two whitespace characters in a row |
| Markdown.PlainTextUnchanged | server.py:101-125 | on text without markup characters, the substitutions do nothing but collapse whitespace |
| Markdown.PlainTextKept | server.py:101-127 | on text without markup characters, `clean_markdown` changes only whitespace |
| Markdown.CleanMarkdownDeletes | server.py:101-127 | apart from whitespace, `clean_markdown` only deletes characters: the cleaned text is a subsequence of the input |
| Emojis.IsEmoji | server.py:76-90 | the character class of `emoji_pattern`: exactly its eleven code-point ranges |
| Emojis.EmojiIntervals | server.py:76-90 | the eleven ranges are three intervals, U+24C2 to U+1F251, U+1F300 to U+1F64F and U+1F680 to U+1FAFF; no character below U+24C2 (ASCII, the Latin-1 letters, `¿`) is an emoji, and every CJK unified ideograph is one |
| Emojis.EmojisToStopsFrom | server.py:76-93 | after each emoji run is replaced by ". ", no emoji is left, and only emoji, periods and whitespace changed; text without emoji is kept; a run becomes ". " followed by the rest |
| Emojis.EmojisToStopsRuns | server.py:76-93 | the emoji substitution equals the run-by-run reference: every maximal run of emoji becomes ". ", and every other character is kept |
| Emojis.EmojisToStopsCopies | server.py:76-93 | up to the next emoji, the substitution copies the text unchanged |
| Emojis.EmojiBetweenWords | server.py:76-93 | one emoji between two texts without emoji becomes ". " and both texts are kept: "Hi " + emoji + " there" becomes "Hi .  there" |
| Emojis.CollapseDotsFrom | server.py:95 | after runs of periods are collapsed, no period follows another; no emoji comes back; only periods changed |
| Emojis.CollapseDotsRuns | server.py:95 | the period collapse equals the run-by-run reference: every maximal run of two or more periods becomes one period, and every other character is kept |
| Emojis.CollapseSpacesFrom | server.py:97 | after runs of three or more whitespace characters are collapsed, no three whitespace characters are adjacent |
| Emojis.CollapseSpacesRuns | server.py:97 | the whitespace collapse equals the run-by-run reference: every maximal run of three or more whitespace characters becomes one space, and every other character, shorter runs included, is kept |
| Emojis.CollapseSpacesSpoken | server.py:97 | collapsing whitespace changes only whitespace |
| Emojis.ProcessEmojis | server.py:73-98 | the result has no emoji, no `..` and no run of three whitespace characters; apart from emoji, periods and whitespace, the text is unchanged |
| Emojis.QuestionMarksSurvive | server.py:73-98 | emoji processing neither creates nor removes any character other than emoji, periods and whitespace (question marks in particular) |
| Prosody.HideFrom | server.py:137 | after hiding, no three periods are left in a row |
| Prosody.RestoreFrom | server.py:150 | restoring yields nothing exactly when nothing is left, and each output starts with the input character, or with `.` where a placeholder starts |
| Prosody.RestoreFiltered | server.py:150 | on text made of placeholders and characters other than `_`, removing whitespace before or after restoring gives the same text |
| Prosody.RestoreLeavesNone | server.py:150 | after restoring, no placeholder is left |
| Prosody.RestoreHidden | server.py:137-150 | on a text without `_`, putting back the hidden ellipses gives back the original text |
| Prosody.SpaceAfterFrom | server.py:141-144 | one spacing substitution: each mark, with the whitespace run after it, becomes the mark and `width` spaces; the result is empty exactly for an empty suffix and starts with the suffix's first character (the gaps are `Prosody.SpaceAfterPauses`) |
| Prosody.SpaceAfterPauses | server.py:141-144 | after the substitution, each of its marks is followed by exactly `width` spaces and then a non-whitespace character or the end |
| Prosody.SpaceAfterKeeps | server.py:141-144 | the comma/semicolon step keeps the three-space gaps the sentence step made |
| Prosody.SpaceAfterRespaces | server.py:141-144 | the two spacing steps change only whitespace |
| Prosody.SqueezeFrom | server.py:147 | after the squeeze, no four spaces are in a row, and any run of up to three spaces at the front was already in the input |
| Prosody.SqueezeRuns | server.py:147 | the squeeze equals the run-by-run reference: every maximal run of four or more spaces becomes three spaces, and every other character is kept |
| Prosody.SqueezeKeeps | server.py:147 | the squeeze keeps every gap of at most three spaces after a mark |
| Prosody.SqueezeRespaces | server.py:147 | the squeeze changes only whitespace |
| Prosody.RestoreKeeps | server.py:150 | restoring the ellipsis keeps the gaps after marks other than `.` |
| Prosody.RestoreDots | server.py:150 | after restoring, every period is followed by a three-space gap or belongs to a `...` |
| Prosody.RestoreNoRun4 | server.py:150 | restoring the ellipsis does not create four spaces in a row |
| Prosody.Respaced | server.py:141-147 | the two spacing substitutions and the squeeze on the hidden text, in the order of the code; the result is empty exactly for an empty text and holds no four spaces in a row |
| Prosody.RespacedOnlyWhitespace | server.py:141-147 | between hiding and restoring the ellipsis, only whitespace changes |
| Prosody.EnhancePauses | server.py:130-152 | see the note below this table |
| Prosody.EllipsisWhole | server.py:135-150 | an ellipsis comes out verbatim: when the text before it has no `_` and does not end with a period, the output is the output for the text before it, then `...`, then the output for the text after it |
| Prosody.PausesOnlyRespace | server.py:130-152 | on a text without `_`, `enhance_punctuation_pauses` changes only whitespace |
| Questions.IsQuestion | server.py:155-158 | `is_question` holds exactly when some character is `¿` or `?`; a text it rejects passes through `enhance_questions` unchanged |
| Questions.EnhanceQuestionsFrom | server.py:168 | after the substitution, every `?` that has a predecessor has `.`, `?` or `!` before it |
| Questions.EnhanceMatchesReference | server.py:168 | scanning with non-overlapping matches agrees with inserting "..." independently before each `?` whose predecessor is not `.`, `?` or `!` |
| Questions.EnhanceQuestions | server.py:161-172 | `enhance_questions` inserts "..." before exactly the question marks whose previous character is not `.`, `?` or `!`, after which every question mark follows one of them |
| Questions.PausedUnchanged | server.py:168 | a text where every `?` already follows `.`, `?` or `!` is left unchanged |
| Questions.EnhanceIdempotent | server.py:161-172 | applying `enhance_questions` twice is the same as applying it once |
| Questions.SpanishExample | server.py:163 | the documented example "¿Cómo estás?" becomes "¿Cómo estás...?" |
| Synthesize.LanguageModel | server.py:61-65 | `LANGUAGE_MODELS` has a model for exactly `es`, `en` and `pt`, each in the folder named after its language |
| Synthesize.SupportedLanguages | server.py:61-65 | the languages with a model are exactly `es`, `en` and `pt`, and `AvailableLanguages`, the list the refusal names, is "es, en, pt" in that order |
| Synthesize.PresetFor | server.py:349-357 | a question gets the engine arguments "1.15", "0.65", "0.85" and any other text "1.15", "0.55", "0.70" |
| Synthesize.Argument | server.py:348-356 | a preset value in hundredths is rendered as a `d.dd` argument that reads back as the same number |
| Synthesize.PresetsCompared | server.py:348-356 | see the note below this table |
| Synthesize.ModelPath | server.py:330 | the path is `models/`, the model name and `.onnx`, in that order, so the name can be read back from the path |
| Synthesize.SpanishModelPath | server.py:324-330 | the Spanish voice is looked for at `models/es/es_MX-claude-high.onnx` |
| Synthesize.Detail | server.py:284-337 | the detail of an unsupported language quotes that language verbatim, and the detail of a missing model quotes its path verbatim |
| Synthesize.DetailsDistinct | server.py:284-337 | two different refusals never carry the same detail message |
| Synthesize.CleanText | server.py:298-302 | the text handed on after markdown and emoji processing and `strip()` is trimmed and has no emoji |
| Synthesize.CleanTextDeletes | server.py:298-302 | apart from whitespace, periods and emoji, the clean text is the request text with characters deleted |
| Synthesize.PlainTextSpoken | server.py:298-302 | on a text without markup characters, cleaning changes only whitespace, periods and emoji |
| Synthesize.EngineText | server.py:309-316 | a statement is read with the pause layout of `enhance_punctuation_pauses`; a question also gets "..." before exactly the `?` that do not follow a stop, after which every `?` follows one |
| Synthesize.Respond | server.py:284-337 | an accepted request has all of the following: a supported language, a non-empty clean text, the question flag of that text, the preset of that flag, and an existing model path for the language; every refusal carries the status 400 |
| Synthesize.Synthesize | server.py:275-337 | an accepted request's clean text is the pipeline output, which is trimmed and has no emoji |
| Synthesize.BlankTextRejected | server.py:284-285 | a request is refused with "Text cannot be empty" exactly when its text is whitespace only, whatever the language |
| Synthesize.BlankLanguageRejected | server.py:287-288 | given a text, a request is refused with "Language must be specified" exactly when the language is whitespace only |
| Synthesize.UnknownLanguageRejected | server.py:291-296 | given a text and a language, a request is refused as unsupported, naming that language, exactly when the language has no model |
| Synthesize.EmptyAfterProcessingRejected | server.py:304-305 | given a valid text and a supported language, a request is refused with "Text cannot be empty after processing" exactly when the clean text is empty |
| Synthesize.ModelFileDecides | server.py:330-337 | once the input is valid, a request is accepted exactly when the model file exists; otherwise it is refused naming the missing path |
| Synthesize.ValidationIgnoresModels | server.py:284-305 | every refusal before the model check happens whatever is on disk |
| Synthesize.AcceptedEngineText | server.py:309-316 | see the note below this table |
| Cleanup.Expired | server.py:497-502 | a file is expired exactly when its age, `now` minus its modification time, is more than 3600 seconds |
| Cleanup.IsMp3 | server.py:500 | the files the glob "*.mp3" yields: names of at least four characters whose last four are ".mp3", hidden names included (`Cleanup.Mp3Glob` states it as a pattern) |
| Cleanup.Mp3Glob | server.py:500 | `IsMp3` is the glob "*.mp3": a name matches exactly when it is some stem, possibly empty, followed by ".mp3" |
| Cleanup.ExpiredNames | server.py:497-504 | the files a pass deletes are among the files in the directory |
| Cleanup.Swept | server.py:500-504 | after a pass, a file remains exactly when it is not an expired `.mp3` file, and its modification time is unchanged |
| Cleanup.SweptIsRemoval | server.py:500-504 | the directory after a pass is the old one minus the expired `.mp3` files |
| Cleanup.SweptCount | server.py:496-504 | a pass reduces the number of files by exactly the number of expired `.mp3` files |
| Cleanup.SweptIdempotent | server.py:496-504 | a second pass at the same moment deletes nothing |
| Cleanup.CutoffBoundary | server.py:497-503 | see the note below this table |
| Cleanup.AudioDir.SweepPass | server.py:496-504 | the loop leaves the directory equal to the swept one, and `deleted_count` equals the number of expired `.mp3` files, which is the drop in the file count |

Notes on the longer rows:

- **Prosody.EnhancePauses.** In the output of `enhance_punctuation_pauses`:
  - every `!` and `?` is followed by exactly three spaces, then a
    non-whitespace character or the end;
  - every `,` and `;` is followed by exactly two spaces, likewise;
  - every `.` is followed the same way by three spaces, or is one of three
    periods in a row (that an input `...` is kept whole is
    `Prosody.EllipsisWhole`);
  - no four spaces are in a row;
  - no placeholder is left.
- **Synthesize.PresetsCompared.** Questions and statements use the same
  length scale. Questions get a larger noise scale and a larger noise width.
  The arguments are "1.15 0.65 0.85" for a question and "1.15 0.55 0.70" for
  a statement.
- **Synthesize.AcceptedEngineText.** The question flag is set exactly when
  the clean text contains `¿` or `?`.
  - A statement is read as the paused text, with the statement preset.
  - A question is read as `enhance_questions` of the paused text, so every
    `?` follows `.`, `?` or `!`. The question preset is used.
- **Cleanup.CutoffBoundary.** An `.mp3` file exactly 3600 s old is kept. One
  that is 3601 s old is deleted. A file of any other kind is kept whatever
  its age.

## Left out

- **Audio production.** After the plan is made, the endpoint:
  - runs the Piper subprocess with a timeout, feeding it the text;
  - samples CPU and memory in a thread;
  - pitch-shifts and converts the audio to MP3 with pydub;
  - reads the duration and builds the public URL and the response.

  These are process, file-system and clock effects and are not modelled.
  Their error responses (engine failure, timeout, missing executable, the
  catch-all 500) are not modelled either.
- **Unique file names.** The `uuid4` file names are random and are left out.
- **The model file check.** `Path.exists()` on the model file becomes the
  parameter `modelExists` of `Synthesize.Respond`.
- Synthesize.Respond: takes the cleaned text as an argument rather than
  computing it after the language checks. The cleaning is pure and cannot
  fail, so no answer changes; `Synthesize.Synthesize` supplies it.
- Cleanup.AudioDir.SweepPass: the pass is not modelled in full:
  - the infinite loop and the 300 s sleep around it are left out;
  - the log line is left out;
  - the `try` that ends a pass at the first failing `stat` or `unlink` is left
    out: the model's file operations cannot fail;
  - directories whose names end in `.mp3` are left out;
  - modification times are whole seconds rather than floats, compared with
    `now - 3600` as naive local datetimes;
  - daylight-saving shifts in `datetime.fromtimestamp` are not modelled.
- **Pydantic.** The validation of the request body by pydantic (both fields
  must be strings) is assumed to have passed.
- **Logging.** All logging is left out.
- **Other endpoints and startup.** The health and root endpoints, CORS, the
  static file mount, startup, and the public-URL detection from environment
  variables are outside this model.
- **Worked examples.** Concrete strings are evaluated only for the bold
  example and the question example; the emoji example
  (`Emojis.EmojiBetweenWords`) is stated for any emoji between emoji-free
  texts. The other
  substitutions are described by their contracts, their `...Match` and
  `...Copies` lemmas and, for the collapsing steps, their `...Runs` lemmas.
- Prosody.EllipsisWhole: proved only when the text before the ellipsis has
  no `_` and does not end with a period. After a period, `....` hides its
  first three periods. A `_` can join a placeholder.
- **download_models.py** is not part of this model.
