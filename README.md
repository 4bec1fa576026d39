# EcoLearn backend: quiz, leaderboard and conversation core

This project models the logic of the EcoLearn backend service (`main.py`), a
FastAPI application for environmental education, in Dafny and proves properties
of that model. The modelled core is the state the service keeps between
requests and the code that changes it:

- **Quiz parsing.** `/quiz/start` asks the text generator for five
  multiple-choice questions. It splits the reply on `Q<digits>.` markers and
  parses each block: a question line, up to four option lines `A.`–`D.`, and an
  `Answer:` letter. The result is cut to five questions (`QuizParser`). A
  renderer writes questions in the format the prompt shows, without the
  four-space indentation every line of the prompt's triple-quoted literal
  carries, and the parser is proved to read them back (`QuizRender`). A copy
  of the example kept indented yields no questions at all: after
  `block.strip()` the option lines still begin with spaces, and the anchored
  option pattern rejects them (`IndentedOrLowercaseOptionRejected`).
- **Sessions.** `active_quizzes` maps a user name to the questions of their
  quiz. `/quiz/start` overwrites the entry. `/quiz/submit` removes it after a
  successful commit.
- **Grading.** The submitted `{"q", "ans"}` entries are looked up in the answer
  key `{"q0": "A", ...}`, and each entry that hits adds one point (`Grader`).
- **The leaderboard table.** The first row with the user's name gets the new
  score; without such a row, one row is appended. The top-ten query returns at most
  ten rows, by non-increasing score (`Leaderboard`).
- **Conversation histories** of `grok_chat_completion`. There is one history per
  caller id: a system message on the first call, the user's message on every
  call, and the reply only on status 200 (`Chat`).
- **Two string helpers.** The tip list of `/carbon-footprint`, and the file
  extension `/share/upload` gives an image (`Helpers`).
- **The service object** (`Backend.Service`). It holds the three mutable stores
  (conversations, active quizzes, table rows) and the routes as methods that
  update them.

Every call to an outside service is a parameter of the method that makes it:

- the text generator's outcome (a reply, a refusal with status and body, or an
  exception);
- whether the database query or commit raised;
- the already decoded answer list.

Text is ASCII. Whitespace is Python's ASCII whitespace set (characters 9–13,
28–31 and 32), used both for `str.strip()` and for the regular-expression
class `\s`. Digits are `0`–`9`.

Behaviours of `main.py` worth knowing, which the model keeps:

- Option letters are matched case-sensitively, on the unstripped line. An
  indented or lower-case option line is rejected.
- Text before the first marker is itself a candidate block.
- `/quiz/start` returns the questions with their answers to the client.
- A session is removed only after a successful commit. A name whose stored
  quiz is the empty list is answered "not found" like an absent one.
- User names are not unique in the table, so the first row with the name is
  the one updated.
- The leaderboard order is non-increasing, with ties in no fixed order.
- When the generator fails, the warning text it returns is what gets parsed.
  It normally yields no questions.
- `/quiz/start` and `/carbon-footprint` also add to the conversation history
  of their caller id: the user name for `/quiz/start`, and `carbon-footprint`
  for `/carbon-footprint`.

## Model

| member | source | states |
|---|---|---|
| AsciiText.StripShape | main.py:233 | `strip()` gives the empty string exactly for whitespace-only text; otherwise the result neither starts nor ends with whitespace |
| AsciiText.JoinSplit | main.py:236 | splitting on a separator loses nothing: joining the pieces gives back the text |
| AsciiText.NatToDecimalInjective | main.py:280 | different positions have different decimal numerals, so the keys `q<idx>` are distinct |
| QuizParser.SplitMarkers | main.py:230 | `re.split(r'Q\d+\.', text, flags=re.IGNORECASE)`: at least one piece; `SplitMarkersWeave`, `MarkersAreWhole` and `PiecesHaveNoMarker` state which pieces |
| QuizParser.SplitMarkersWeave | main.py:230 | `re.split` on the marker pattern keeps everything: the pieces interleaved with the dropped markers rebuild the text, and there is one more piece than markers |
| QuizParser.MarkersAreWhole | main.py:230 | every dropped text is a whole `Q<digits>.` marker, with `Q` in either case |
| QuizParser.PiecesHaveNoMarker | main.py:230 | no piece of the split contains a marker: matches are leftmost and non-overlapping |
| QuizParser.OptionsOf | main.py:244-247 | the option loop: at most one option per line; `OptionsCount` and `OptionsWindow` state which options |
| QuizParser.OptionShape | main.py:246-247 | an option line that matches, once stripped, keeps its letter and dot and ends in a non-space |
| QuizParser.OptionsCount | main.py:244-247 | lines give one option each exactly when all of them match, and the options are then the stripped lines |
| QuizParser.OptionsWindow | main.py:244-247 | lines 1–4 give four options exactly when the block has at least five lines and all four match; the options are then those lines stripped |
| QuizParser.QuestionLineNonEmpty | main.py:233-241 | the stripped first line of a non-blank block is non-empty |
| QuizParser.ParseBlock | main.py:232-256 | one pass of the block loop: a question it yields has a non-empty text, exactly four options and an answer in A–D; `BlockAcceptance` states when it yields one and which |
| QuizParser.BlockAcceptance | main.py:232-256 | a block yields a question if and only if it is non-blank, has at least five lines, lines 1–4 all match the option pattern and the last line has an `Answer:` letter; the question is then the stripped first line, the four stripped option lines and the upper-cased letter |
| QuizParser.IndentedOrLowercaseOptionRejected | main.py:244-246 | a block whose option line 1–4 starts with whitespace or a lower-case letter gives nothing; so a copy of the prompt's indented example gives no questions |
| QuizParser.FindAnswer | main.py:251 | the `re.search` scan: a found letter is one of A–D or a–d; `FindAnswerLeftmost` states which letter it finds |
| QuizParser.AnswerAtMatch | main.py:251 | a match starts at the front of a text exactly when it is `Answer:` in any letter case, only whitespace, then a letter A–D or a–d, and the captured letter is that letter |
| QuizParser.FindAnswerLeftmost | main.py:251 | the search finds letter `c` exactly when a match with letter `c` starts at some position and none starts earlier, and finds nothing exactly when no match starts anywhere |
| QuizParser.AnswerLineAccepted | main.py:251 | `Answer:` in any letter case, any whitespace and a letter in either case, after text where no match starts and before any text at all, is found with that letter |
| QuizParser.AnswerAfterPlainText | main.py:251 | the same after text without `a`/`A`, so `Correct answer: b.` yields `b` |
| QuizParser.LowercaseAnswerUppercased | main.py:250-253 | the stored answer is the found letter upper-cased; a lower-case letter is stored as its capital |
| QuizParser.Parse | main.py:228-259 | the split, the block loop and `questions[:5]`: at most five questions; `ParseBlockOrder` states which |
| QuizParser.ParseShape | main.py:237-259 | at most five questions, each with a non-empty stripped text, exactly four options that each start with a capital A–D and a dot followed by whitespace or nothing, and an answer in A–D |
| QuizParser.ParseBlockOrder | main.py:230-259 | questions come out in block order, at most one per block; a block contributes exactly when it parses; the result is the first five |
| QuizParser.ParseQuizBlock | main.py:232-256 | the loop body: the option loop over `lines[1:5]` computes the question the block specification gives, which is well formed |
| QuizParser.ParseQuiz | main.py:228-259 | the parsing loop returns exactly the specified parse of the text: at most five questions, all well formed |
| QuizRender.SplitRender | main.py:230 | text written in the prompt's format, without the literal's indentation, splits into an empty preamble and one block per question |
| QuizRender.BlockRoundTrip | main.py:232-256 | a block written in the prompt's format, without the literal's indentation, parses back to the question it was written from |
| QuizRender.ParseBlocksRendered | main.py:232-256 | rendered blocks parse back to their questions, in order |
| QuizRender.ParseRender | main.py:208-259 | round trip: text in the prompt's format, without the literal's indentation, with any number of questions parses back to the first five of them |
| Grader.IndexKeyInjective | main.py:280 | two positions with the same key are the same position |
| Grader.AnswerKey | main.py:280 | the answer key has the key `q<idx>` for every position, holding that question's answer, and no other key |
| Grader.Grade | main.py:276-287 | the grading loop: `total` is the number of stored questions, and `score` is the number of submitted entries that earn a point, repeats included |
| Grader.KeyNamesPosition | main.py:280-286 | a submitted index finds a key exactly when its text is the decimal numeral of a position |
| Grader.IntIndexHits | main.py:283-286 | an integer index earns a point if and only if it is a position of the quiz and `ans` is that question's letter; negative and out-of-range indices never count |
| Grader.StringIndexHits | main.py:283-286 | a string index such as `"1"` is looked up under the same key as the integer it spells |
| Grader.LowercaseAnswerNeverHits | main.py:284-286 | a lower-case letter never earns a point, because the stored answers are upper-case |
| Grader.CorrectCount | main.py:282-287 | the score: the number of submitted entries that hit; its properties are the contracts of `Grade`, `CorrectCountSnoc` and `CorrectCountBound` |
| Grader.CorrectCountSnoc | main.py:282-287 | one more submitted entry adds one point exactly when it hits |
| Grader.CorrectCountBound | main.py:282-287 | the score never exceeds the number of submitted entries |
| Grader.RepeatsCountAgain | main.py:282-287 | answering question 0 correctly `k` times scores `k` |
| Grader.ScoreCanExceedTotal | main.py:276-287 | for every non-empty quiz, some submission scores more than the total |
| Grader.PerfectScore | main.py:276-287 | answering every question once correctly scores exactly the total |
| Leaderboard.FirstRow | main.py:290 | `.first()` of the name filter: a row with the name, and no earlier one; or no row has the name |
| Leaderboard.NextId | main.py:294-295 | a new row's key differs from every key in use |
| Leaderboard.Upsert | main.py:290-297 | after the write the name's score is the new score; an existing first row is overwritten in place, otherwise exactly one row with the name and score is appended under a fresh key; every other row is unchanged |
| Leaderboard.UpsertOthers | main.py:290-297 | every other name keeps the score it had |
| Leaderboard.UpsertOverwrites | main.py:291-292 | a second submission replaces the first score, even a higher one, and adds no row |
| Leaderboard.Insert | main.py:314 | inserting into a list in non-increasing score order keeps the order and adds exactly that row |
| Leaderboard.SortByScore | main.py:314 | `order_by(desc(score))`: the rows in non-increasing score order, a permutation of the table |
| Leaderboard.TopTen | main.py:314-316 | the ordered, limited query and the entry list: exactly `min(10, rows)` entries |
| Leaderboard.TopTenShape | main.py:314-316 | at most ten entries (exactly `min(10, rows)`), in non-increasing score order, taken from distinct rows of the table; the answer is one that the ordered, limited query allows |
| Leaderboard.TopTenDominates | main.py:314-316 | no row left out scores above any entry of the answer |
| Chat.ReplyText | main.py:103-112 | on status 200 the stripped reply; every failure text starts with the warning sign |
| Chat.NextHistory | main.py:89-107 | the history after one call; its properties are the contracts of `FirstCallCreatesSystemMessage`, `CallExtendsHistory` and `StepCounts` |
| Chat.FirstCallCreatesSystemMessage | main.py:89-91 | a new id's history starts with one system message built from the first call's language and age level, and that call adds no other system message |
| Chat.CallExtendsHistory | main.py:91-107 | a call keeps the old history as a prefix and appends the user's message, plus the reply on status 200 only: two entries on success, one otherwise |
| Chat.LaterCallsIgnoreLanguage | main.py:89-90 | language and age level matter only on an id's first call |
| Chat.StepCounts | main.py:89-107 | one call on an existing history adds one user message, one assistant message on success, and no system message |
| Chat.ReplayCounts | main.py:88-112 | over a run of calls the history keeps its start; it gains one user message per call, one assistant message per successful call, and no system message |
| Chat.FreshReplayCounts | main.py:88-112 | a fresh id after `n` calls has exactly one system message, which is first, plus `n` user messages and one assistant message per success |
| Helpers.CleanTip | main.py:173 | `line.strip("-•* ").strip()`: the result neither starts nor ends with whitespace |
| Helpers.CarbonTips | main.py:173-174 | the comprehension and `tips[:3]`: at most three tips; `CarbonTipsFromLines` states which |
| Helpers.TipOfNonBlank | main.py:173 | a line gives a tip exactly when it is not whitespace-only |
| Helpers.CarbonTipsFromLines | main.py:173-174 | at most three tips; the k-th is the k-th non-blank line of the reply, cleaned; the positions used are exactly those of the non-blank lines, in increasing order |
| Helpers.CarbonTipsTrimmed | main.py:173 | no tip begins or ends with whitespace |
| Helpers.BulletListTips | main.py:163-174 | a reply in the requested format of three `- <tip>` lines gives those three tips |
| Helpers.RFind | main.py:329 | `rfind`: the last position holding the character, or -1 |
| Helpers.SplitExt | main.py:329 | `os.path.splitext`: base and extension rebuild the path; the extension is empty or a dot followed by neither dots nor slashes |
| Helpers.SplitExtComponent | main.py:329 | for a directory part and a slash-free last component, an extension is found exactly when a non-dot character of the component comes before one of its dots, and it is the component from its last dot on |
| Helpers.LeadingDotsNoExtension | main.py:329 | a component of leading dots, a dot and a dot-free tail (`.png`, `..png`) has no extension, in any directory |
| Helpers.SplitExtOf | main.py:329 | in any directory, the extension of `base.ext` is `.ext` when `base` has a non-dot character and neither part has a slash |
| Helpers.ShareExtension | main.py:329-331 | the extension given is always one of `.png`, `.jpg`, `.jpeg`, `.webp` |
| Helpers.NoExtensionDefaultsToPng | main.py:329 | no extension, or no file name at all, gives `.png` |
| Helpers.AllowedExtensionKept | main.py:329-331 | an allowed extension in any letter case, after a base name with a non-dot character in any directory (`photos/cat.JPG`), is kept, lower-cased |
| Helpers.OtherExtensionBecomesPng | main.py:330-331 | any other extension becomes `.png` |
| Backend.Service.constructor | main.py:42-63 | a fresh process: no conversations, no active quizzes, and the table as stored; every stored quiz is the parse of some generator text, with at most five well-formed questions |
| Backend.Service.ChatCompletion | main.py:88-112 | for an outcome the call can produce (status 200 is never a refusal), the caller's history becomes the next history for the call, every other caller's history is unchanged, and the reply text is returned |
| Backend.Service.Chat | main.py:143-147 | a completion under the default caller id `user-1` |
| Backend.Service.CarbonFootprint | main.py:172-174 | a completion under the caller id `carbon-footprint`, in English for an adult, whose reply becomes at most three tips |
| Backend.Service.StartQuiz | main.py:226-262 | the parsed list, even an empty one, replaces the user's quiz; other users' quizzes are unchanged; the user's conversation gains the call; every stored quiz stays the parse of some generator text, with at most five well-formed questions |
| Backend.Service.SubmitQuiz | main.py:264-308 | an absent or empty session gives not-found and changes nothing; a failure before the commit gives a server error and changes nothing; otherwise the response is the score and total, the table is upserted, and the session is removed; every stored quiz stays the parse of some generator text, with at most five well-formed questions |
| Backend.Service.UpsertRow | main.py:290-297 | the table after the write is the upsert of the table before it |
| Backend.Service.GetLeaderboard | main.py:310-320 | entries if and only if the query does not raise: at most ten, and an answer the ordered, limited query allows |

## Left out

- The HTTP calls to the text generator, the speech-to-text service and the image classifier. The generator's outcome is a parameter. The `/stt` and `/recycle` routes are not part of this model, and neither is the `/` health route.
- File writes, removals and UUID file names in `/stt` and `/share/upload`. Only the extension choice of `/share/upload` is modelled.
- The SQLAlchemy engine and session. The table is an in-memory sequence of rows. A commit applies the write. A raised query or commit (the `dbFails` input) discards it, as the rollback does.
- `json.loads` of the submitted answers. The submission is an already decoded entry list, or `None` for every way decoding or reading `q`/`ans` raises, which leads to the server-error branch. JSON `{}` or `""` iterate zero times and are an empty list.
- FastAPI routing, CORS, the static mount, `base64` decoding, the `grok_tts` placeholder (whose audio URL is always null), and `validate_response`, which returns its input unchanged.
- The float fields of the carbon-footprint request, which only go into the prompt. The prompt is a parameter.
- Request payloads and prompts sent to the generator. They are parameters, not constants.
- Concurrent requests on the shared dictionaries. Each method is one whole request.
- Unicode semantics of `str.strip()`, `\s`, `\d`, `lower()` and IGNORECASE. The model is restricted to ASCII.
- Leaderboard.NextId: the key the database assigns to a new row is taken as one more than the largest key in use. Only its freshness is stated. The key is not visible in any response.
- Leaderboard.SortByScore: ties among equal scores are broken by insertion order here. The database may pick any order, so the query's contract is stated as `IsTopTen`, which allows every tie order.
- Leaderboard.FirstRow: `.first()` without `order_by` is taken to return the first row in table order.
- Helpers.SplitExt: models POSIX `os.path.splitext` only, with `/` as the only separator.
