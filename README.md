# Testing agent: a Dafny model of its core

The testing agent generates pytest suites for Python code. A three-task CrewAI pipeline does
the generation: it analyses the code, writes tests, then validates the tests. A Telegram bot is
the front end. This project models the deterministic parts of that system and proves properties
about them:

- **The Telegram front end** (`bot/telegram_bot.py`):
  - the per-user rate limiter `check_rate_limit`: 5 requests per 60-second window, a lazy
    insert, and a full reset once the window has expired;
  - the session dictionary `USER_STATES` updated by `button_callback`;
  - the message-code extractor `extract_code_from_message`: three fenced-block patterns, tried
    in order, then a fallback to the whole text;
  - the test-block selection of `generate_tests`:
    - with the "```python" marker present, the longest python block, or the whole output when
      none matches;
    - without the marker, the longest bare block, or the whole output when none matches;
  - the two handlers `handle_code_message` and `handle_document`, with their order of checks
    and their replies.
- **The crew** (`src/crew.py`):
  - the task wiring: a chain analyse → write → validate;
  - the dictionary `run` returns;
  - the default output path of `run_and_save` (`src/calc.py` → `tests/test_calc.py`);
  - the text it saves: the last python block.
- **The example calculator** (`examples/calculator.py`):
  - a `Calculator` object whose history grows by one entry per successful operation and is
    untouched on error;
  - `factorial`, `fibonacci` and `is_prime`, each proved against its mathematical definition.

The modules follow the program's structure:

| file | module | contents |
|---|---|---|
| `wrappers.dfy` | `Wrappers` | `Option`, `Result`, dictionary lookup |
| `text.dfy` | `Text` | `str.strip` with Python's whitespace set, substring search, `str.endswith`, `str.rfind` |
| `fences.dfy` | `Fences` | `re.findall` for the lazy, DOTALL fence patterns; `max(..., key=len)` |
| `rate_limiter.dfy` | `RateLimiter` | one call of `check_rate_limit` as a pure step on a user's window; replays of several calls |
| `crew.dfy` | `Crew` | `TestingCrew`'s wiring, `run`, and `run_and_save`'s path and content |
| `telegram_bot.dfy` | `TelegramBot` | session states, both extractors, the handlers' replies; class `Bot` holding `RATE_LIMIT` and `USER_STATES` as map fields, with the handlers as methods |
| `calculator.dfy` | `Calculator` | class `Calculator` with its history; `factorial`, `fibonacci`, `is_prime` |

Things outside the model are parameters:

- The clock reading `datetime.now().timestamp()` is the `now: real` argument.
- The CrewAI kickoff behind `generate_tests` is a function `crew: string -> Option<RunResult>`.
  `None` stands for an exception that `generate_tests` catches.
- An uploaded file's downloaded text is the `content` argument.

`re.findall(r'<open>(.*?)```', text, re.DOTALL)` is modelled as a scan:

- It finds the leftmost opener.
- The match's content ends at the nearest "```" at or after the content start.
- The scan resumes after that closer.
- An opener without a later closer ends the scan. There is then no later match either.

`Fences.MatchSpans` returns the (opener, closer) positions of that scan, and `Fences.ScanOf`
characterises them without reference to the scan itself. `Fences.FindAllFrom` returns the
groups those positions delimit.

## Model

| member | source | states |
|---|---|---|
| Text.Strip | bot/telegram_bot.py:249 | `str.strip()`: the result carries no leading or trailing whitespace (Python's `isspace` set); it is the infix of the input left after removing the leading whitespace; every removed character is whitespace; it is empty exactly when the input is all whitespace |
| Text.StripStripped | bot/telegram_bot.py:246 | stripping text that is already stripped returns it unchanged |
| Text.ContainsStrip | bot/telegram_bot.py:301 | an occurrence of a pattern that starts and ends with non-whitespace (such as the python marker) survives stripping |
| Text.FindFromFirstAt | bot/telegram_bot.py:244 | the search from a position returns exactly the first occurrence at or after it, and none when there is none |
| Fences.MatchSpans | bot/telegram_bot.py:244 | the positions of the lazy DOTALL scan: each span starts at the leftmost opener at or after the resume point, ends at the nearest "```" at or after the content start, and after the last span no opener has a later closer |
| Fences.ScanEmpty | bot/telegram_bot.py:244 | the scan yields no span exactly when no block starts at or after the scan position |
| Fences.ScanMatches | bot/telegram_bot.py:244 | every span is an opener at or after the scan position followed by its nearest closer |
| Fences.ScanResumes | bot/telegram_bot.py:244 | each span after the first starts at the first opener after the previous span's closer |
| Fences.ScanEnds | bot/telegram_bot.py:244 | no block starts after the last span's closer |
| Fences.FindAllFrom | bot/telegram_bot.py:244 | lazy DOTALL `findall`: block i is the text between span i's opener and its closer; every block is free of "```"; the result is empty exactly when no opener is followed by a closer at or after the scan position |
| Fences.FindAllBlocks | bot/telegram_bot.py:244 | every returned block is the text between some opener at or after the scan position and the nearest "```" after it |
| Fences.FindAllFirstBlock | bot/telegram_bot.py:244-246 | the first returned block (what `matches[0]` reads) starts right after the first opener at or after the scan position and ends at the nearest closer |
| Fences.NoFenceNoBlocks | bot/telegram_bot.py:244 | text holding no "```" yields no block for any opener |
| Fences.NoBlocksInfix | bot/telegram_bot.py:244-249 | a contiguous piece of text without blocks has no blocks either |
| Fences.LongestIndex | bot/telegram_bot.py:308 | `max(blocks, key=len)`: it picks a block at least as long as every other, and strictly longer than each earlier one (so it is the first of the longest) |
| RateLimiter.TruncToInt | bot/telegram_bot.py:137 | Python's `int()` on a float truncates toward zero: bounds relating the result to its argument on both signs |
| RateLimiter.SecondsLeft | bot/telegram_bot.py:137-138 | `max(0, int(60 - elapsed))`: the whole number of seconds left in the window, rounded down, and 0 once the window is over |
| RateLimiter.Retained | bot/telegram_bot.py:125-133 | the window kept for the step: the stored one while at most 60 seconds old, otherwise a fresh empty window starting now; either way it is not expired |
| RateLimiter.RateStep | bot/telegram_bot.py:116-141 | a call returns `(True, 0)` whenever it admits, and never a negative wait |
| RateLimiter.FirstRequestAdmitted | bot/telegram_bot.py:125-126 | a user seen for the first time is admitted, and the stored entry then holds exactly that request, with `last_reset` set to now |
| RateLimiter.FullReset | bot/telegram_bot.py:131-133 | once more than 60 seconds have passed since `last_reset`, the whole list is dropped and the request is admitted, whatever the old count |
| RateLimiter.AdmissionAppendsNow | bot/telegram_bot.py:140-141 | an admitted call appended exactly `now` to a list that held fewer than 5 entries, keeping `last_reset` |
| RateLimiter.RejectionLeavesEntry | bot/telegram_bot.py:136-138 | a refusal happens only for a known user with at least 5 stored requests inside an unexpired window, and it leaves the entry exactly as it was |
| RateLimiter.RejectionWaitBounds | bot/telegram_bot.py:137-138 | with a clock that has not gone back, the reported wait lies in [0, 60]; it is 0 exactly in the last second of the window |
| RateLimiter.StepKeepsWellFormed | bot/telegram_bot.py:116-141 | every call preserves the invariant: at most 5 stored timestamps, none later than `last_reset + 60` |
| RateLimiter.StepKeepsInWindow | bot/telegram_bot.py:116-141 | with a monotone clock, every stored timestamp stays within `[last_reset, last_reset + 60]` |
| RateLimiter.Replay | bot/telegram_bot.py:116-141 | successive calls produce one verdict per call |
| RateLimiter.BurstFrom | bot/telegram_bot.py:131-141 | within one unexpired window, call i is admitted exactly when the stored count plus i is below 5 |
| RateLimiter.BurstWithinOneWindow | bot/telegram_bot.py:116-141 | a burst within 60 seconds of a new user's first request: the first 5 are admitted and every later one is refused |
| Crew.CrewTasks | src/crew.py:150-154 | the crew's task list holds the analysis, test-writing and validation tasks, each once |
| Crew.Context | src/crew.py:106-135 | only the analysis task has an empty context; every context holds at most one task, never the task itself |
| Crew.WiringIsChain | src/crew.py:117-155 | the crew runs three distinct tasks, covering every task; the first has no context, each other task's context is exactly the one before it, and writing tests is task 1 |
| Crew.Run | src/crew.py:200-204 | `run` passes `raw` and `token_usage` through, and lists each task output's raw text in task order (an empty list when the attribute is missing) |
| Crew.PathName | src/crew.py:227 | `Path(p).name` is a single component: it holds no `/` and is never `.` |
| Crew.PathNameJoin | src/crew.py:227 | the name of `<d>/<s>` is `s` for any component `s` that is not empty and not `.` |
| Crew.PathNameBare | src/crew.py:227 | a path with no `/` that is not empty and not `.` is its own name |
| Crew.PathNameTrailing | src/crew.py:227 | a trailing `/` or `/.` does not change the name |
| Crew.Stem | src/crew.py:227 | `Path(p).stem` is a prefix of the name without `/`; it drops the name's last suffix, the part from the last `.` when that `.` neither starts nor ends the name, and is the whole name exactly when there is no such `.` |
| Crew.OutputPath | src/crew.py:226-228 | an explicit output path is used unchanged |
| Crew.DefaultPathShape | src/crew.py:226-228 | without an explicit path the file is `tests/test_<stem>.py`, directly inside `tests/` |
| Crew.DefaultPathOfModule | src/crew.py:225-228 | a module `<d>/<b>.py` with a non-empty `b` is saved as `tests/test_<b>.py`, whatever the directory |
| Crew.DefaultPathOfBareModule | src/crew.py:225-228 | a module `<b>.py` given without a directory, with a non-empty `b`, is saved as `tests/test_<b>.py` |
| Crew.DefaultPathExample | src/crew.py:225-228 | `src/calc.py` is saved as `tests/test_calc.py` |
| Crew.BlockImpliesMarker | src/crew.py:237-239 | a python block is only found where the "```python" marker occurs, so testing the marker first never hides a block |
| Crew.SavedContent | src/crew.py:234-241 | the saved text is either the aggregate output itself or a fence-free block of it, never longer than the output |
| Crew.SavedContentIsLastBlock | src/crew.py:237-241 | when a python block matches, the saved text is the last such block, and it holds no fence |
| Crew.SavedContentVerbatim | src/crew.py:234-241 | when no python block matches, the aggregate output is saved verbatim, unstripped |
| TelegramBot.NextUserStates | bot/telegram_bot.py:210-229 | `mode_code` and `mode_file` set the user's state, `cancel` removes it, other data change nothing, and no other user's entry changes |
| TelegramBot.CancelIdempotent | bot/telegram_bot.py:227-228 | `pop(user_id, None)` on an idle user changes nothing, and cancelling twice is cancelling once |
| TelegramBot.FirstMatchStripped | bot/telegram_bot.py:243-249 | the code extracted with any pattern list is stripped, and never longer than the text |
| TelegramBot.ExtractCodeFromMessage | bot/telegram_bot.py:232-249 | the extracted code is stripped and never longer than the message |
| TelegramBot.ExtractCodeOrder | bot/telegram_bot.py:232-249 | the extracted code is the stripped first python-fence match; else the first py-fence match; else the first bare-fence match; else the stripped text |
| TelegramBot.LastPattern | bot/telegram_bot.py:239-249 | the bare fence, the last pattern, falls back to the stripped text |
| TelegramBot.ExtractCodePassthrough | bot/telegram_bot.py:249 | text without any fence is returned, only stripped |
| TelegramBot.ExtractCodeIdempotent | bot/telegram_bot.py:232-249 | extracting again from extracted code returns it unchanged |
| TelegramBot.StrippedBlockIsFixed | bot/telegram_bot.py:244-246 | a matched block, once stripped, is a fixed point of the extractor |
| TelegramBot.TestsSource | bot/telegram_bot.py:293-296 | with at least two task outputs the tests are read from the second; otherwise from the aggregate `raw` text |
| TelegramBot.TestsComeFromWriteStage | bot/telegram_bot.py:293-296 | when the kickoff reports the three tasks in order, the tests are read from the test-writing task's output; without per-task outputs, from the aggregate text |
| TelegramBot.ExtractTests | bot/telegram_bot.py:299-318 | the selected tests are stripped, and empty output yields none |
| TelegramBot.ChosenBlock | bot/telegram_bot.py:299-316 | the text kept for the tests is the content itself or a fence-free block of it |
| TelegramBot.GenerateTests | bot/telegram_bot.py:290-322 | a failed kickoff yields no tests; tests that are returned are stripped and come from a non-empty source text |
| TelegramBot.ChosenBlockCases | bot/telegram_bot.py:299-316 | the selection keeps either a fence-free block, or the content itself because no block of the pattern in force matched |
| TelegramBot.ExtractTestsLongestPython | bot/telegram_bot.py:301-308 | with a python block present, the tests are the stripped longest python block, the first of equally long ones; an empty longest block yields none |
| TelegramBot.ExtractTestsLongestBare | bot/telegram_bot.py:309-316 | with no python marker but a bare block, the tests are the stripped longest bare block |
| TelegramBot.ExtractTestsMarkerWithoutBlock | bot/telegram_bot.py:301-308 | the python marker without a matching python block does not fall back to bare blocks: the stripped content is returned |
| TelegramBot.ExtractTestsPassthrough | bot/telegram_bot.py:299-318 | fence-free output is returned stripped |
| TelegramBot.ExtractTestsIdempotent | bot/telegram_bot.py:299-318 | selecting again from selected non-empty tests returns them unchanged |
| TelegramBot.FallbackIdempotent | bot/telegram_bot.py:299-318 | when the content itself was kept, stripping it neither removes the python marker nor creates a block, so it is kept again |
| TelegramBot.NoFenceOfStripped | bot/telegram_bot.py:318 | stripping cannot create a fence |
| TelegramBot.CodeGate | bot/telegram_bot.py:329-352 | a refused rate-limit check is reported with its wait; a message passes exactly when it is admitted and its extracted code is non-empty and holds one of the keywords; a rejection never carries tests |
| TelegramBot.CodeDelivery | bot/telegram_bot.py:364-399 | tests are delivered exactly when generation returned a non-empty text; that text is sent unchanged, as a document exactly when longer than 3500 characters; otherwise the failure reply |
| TelegramBot.CodeMessageReply | bot/telegram_bot.py:325-399 | a rejected message gets its rejection; an accepted one gets either the tests or the failure reply |
| TelegramBot.CodeGateOrder | bot/telegram_bot.py:325-398 | the rate limit is checked first, then the empty extraction, then the keyword filter; a rejected message never depends on the pipeline; a delivered reply is exactly the non-empty generated tests, sent as a document exactly when longer than 3500 characters |
| TelegramBot.FastPathDispatch | bot/telegram_bot.py:325-362 | an admitted, stripped, fence-free message that passes the keyword filter is handed to the pipeline unchanged |
| TelegramBot.PlainFunctionIsDispatched | bot/telegram_bot.py:325-362 | a new user's plain message `def add(a,b): return a+b` is admitted and handed to the pipeline unchanged, without any mode having been selected |
| TelegramBot.DocumentReplyFor | bot/telegram_bot.py:419-475 | a refused upload reports the wait, and only then; tests are delivered exactly when admitted and generation returned a non-empty text, named `test_<file name>` and equal to that text; the extension refusal never occurs after the rate-limit check |
| TelegramBot.Bot.constructor | bot/telegram_bot.py:47-50 | both dictionaries start empty |
| TelegramBot.Bot.CheckRateLimit | bot/telegram_bot.py:116-141 | the in-place update of `RATE_LIMIT` matches one `RateStep` on the user's old entry; no other user's entry and no session state change; the invariant is kept |
| TelegramBot.Bot.ButtonCallback | bot/telegram_bot.py:210-229 | the new `USER_STATES` is `NextUserStates` of the old one; the rate limiter is untouched; the invariant is kept |
| TelegramBot.Bot.HandleCodeMessage | bot/telegram_bot.py:325-398 | one rate-limit step is taken before the text is inspected (a missing text counts as empty); the reply is `CodeMessageReply` of that step's verdict; the user's state is cleared exactly when tests are delivered |
| TelegramBot.Bot.HandleDocument | bot/telegram_bot.py:408-479 | a name not ending in `.py` is refused before any rate-limit slot is taken, and nothing changes; otherwise one step is taken and the reply is `DocumentReplyFor` its verdict; the state is cleared exactly when tests are delivered |
| Calculator.Calculator.constructor | examples/calculator.py:14-15 | a new calculator has an empty history |
| Calculator.Calculator.Add | examples/calculator.py:17-21 | returns `a + b` and appends exactly that calculation to the history |
| Calculator.Calculator.Subtract | examples/calculator.py:23-27 | returns `a - b` and appends exactly that calculation to the history |
| Calculator.Calculator.Multiply | examples/calculator.py:29-33 | returns `a * b` and appends exactly that calculation to the history |
| Calculator.Calculator.Divide | examples/calculator.py:42-46 | a zero divisor raises `ZeroDivisionError("Cannot divide by zero")` and leaves the history unchanged; otherwise the quotient q satisfies `q * b == a` and exactly one entry is appended |
| Calculator.Calculator.Power | examples/calculator.py:50-54 | a negative exponent raises `ValueError("Exponent must be non-negative")` and leaves the history unchanged; otherwise it returns base^exponent and appends exactly one entry |
| Calculator.Calculator.GetHistory | examples/calculator.py:56-58 | returns a copy equal to the history, every entry of which records a correct calculation |
| Calculator.Calculator.ClearHistory | examples/calculator.py:60-62 | the history becomes empty |
| Calculator.ProductStep | examples/calculator.py:80-82 | 1·2·…·n extends by one factor on the right |
| Calculator.Factorial | examples/calculator.py:78-82 | a negative n raises `ValueError` with the source's message; any other n gives n! = 1·2·…·n (1 for n ≤ 1) |
| Calculator.Fibonacci | examples/calculator.py:98-106 | a negative n raises `ValueError`; otherwise the iterative loop returns fib(n) of the recursive definition |
| Calculator.EvenDoesNotDivideOdd | examples/calculator.py:123-126 | skipping even trial divisors loses nothing for odd n |
| Calculator.TrialStep | examples/calculator.py:126-128 | an odd n not divisible by the odd candidate i gains no divisor below the next odd candidate |
| Calculator.NoDivisorBelowRoot | examples/calculator.py:126-129 | trial division may stop once the divisor's square exceeds n |
| Calculator.IsPrime | examples/calculator.py:119-129 | true exactly when n ≥ 2 and no d with 2 ≤ d < n divides n |

## Left out

- Telegram transport is not modelled: sending, editing and documents, the markdown wrapping of
  short replies, the `/start`, `/help`, `/status` and `/test` commands, the keyboard layout,
  `main`, and the exception handlers around sending. A handler returns the reply it would send.
- Concurrency is not modelled: the asyncio handlers are taken one call at a time.
- Temporary files are not modelled: their creation, download and removal. The downloaded text
  is a parameter, and UTF-8 decoding errors are not represented.
- `document.file_name` being `None` is not represented: the file name is a string.
- The CrewAI kickoff, the agents, the LLMs and the YAML configuration are outside the model.
  The kickoff is a function parameter; its failure is `None`.
- `run` reads a file before the kickoff, and `run_and_save` creates directories and writes the
  file. These are I/O and are not modelled; only the path and the written text are.
- `create_testing_crew`, the coverage tool and `main.py` are not part of this model.
- `RateLimiter.RejectionWaitBounds`: the code truncates the remaining seconds. So during the
  last second of the window a refused request reports a wait of 0, not a positive one. The model
  follows the code.
- `Crew.Stem`: follows the suffix rule of Python 3.12's `pathlib` (a final `.` part that neither
  starts nor ends the name). Drive letters and Windows separators are out of scope.
- `Text.Strip`: uses Python's `str.isspace` character set as a fixed list. Unicode data beyond
  that set is not modelled.
- `Calculator.Factorial`: the source recurses n levels deep. Under CPython's default recursion
  limit, n near 1000 or more raises `RecursionError`. The model has no such limit, so there it
  returns n!.
- Calculator: floating point is not modelled. Operands are exact `real` numbers, so rounding,
  overflow to infinity and the int/float split of `Number` are not represented.
- Calculator history: the entries are structured records, not the formatted strings
  `"{a} + {b} = {result}"`.
- `Calculator.IsPrime`: the loop bound `int(n ** 0.5) + 1` is modelled as `i * i <= n`. The two
  agree on exact arithmetic; float rounding of the square root is not modelled.
