/** Request admission and session control of the Telegram front end: the module-wide
    `RATE_LIMIT` and `USER_STATES` dictionaries with the handlers that update them, and the two
    text extractors the handlers use. Message delivery itself is not modelled: a handler returns
    the reply it would send. */
module TelegramBot {
  import opened Wrappers
  import opened Text
  import opened Fences
  import opened RateLimiter
  import opened Crew

  // ---------------------------------------------------------------- session state

  /** The values `button_callback` stores in `USER_STATES`; a user without an entry is idle. */
  datatype UserState = WaitingCode | WaitingFile

  /** `USER_STATES` after `button_callback` receives `data` from `user`. */
  function NextUserStates(states: map<int, UserState>, user: int, data: string): (r: map<int, UserState>)
    ensures forall v :: v != user ==> (v in r <==> v in states)
    ensures forall v :: v != user && v in states ==> r[v] == states[v]
    ensures data == "mode_code" ==> user in r && r[user] == WaitingCode
    ensures data == "mode_file" ==> user in r && r[user] == WaitingFile
    ensures data == "cancel" ==> user !in r
    ensures data != "mode_code" && data != "mode_file" && data != "cancel" ==> r == states
  {
    if data == "mode_code" then states[user := WaitingCode]
    else if data == "mode_file" then states[user := WaitingFile]
    else if data == "cancel" then states - {user}
    else states
  }

  /** Cancelling an idle user changes nothing, and cancelling twice is cancelling once. */
  lemma CancelIdempotent(states: map<int, UserState>, user: int)
    ensures user !in states ==> NextUserStates(states, user, "cancel") == states
    ensures var once := NextUserStates(states, user, "cancel");
      NextUserStates(once, user, "cancel") == once
  {
  }

  // ---------------------------------------------------------------- extracting code from a message

  /** The patterns `extract_code_from_message` tries, in this order. */
  const MessagePatterns: seq<string> := [PythonOpen, PyOpen, BareOpen]

  /** The stripped first match of the first pattern that matches at all, else the stripped text. */
  function FirstMatchStripped(text: string, patterns: seq<string>): (code: string)
    ensures Stripped(code)
    ensures |code| <= |text|
  {
    if patterns == [] then Strip(text)
    else
      var matches := FindAll(text, patterns[0]);
      if matches != [] then Strip(matches[0]) else FirstMatchStripped(text, patterns[1..])
  }

  /** `extract_code_from_message(text)`. */
  function ExtractCodeFromMessage(text: string): (code: string)
    ensures Stripped(code)
    ensures |code| <= |text|
  {
    FirstMatchStripped(text, MessagePatterns)
  }

  /** The extractor tries the python fence, then the py fence, then the bare fence, takes the
      first match of the first one that matches, and otherwise returns the whole text; in every
      case the result is stripped. */
  lemma ExtractCodeOrder(text: string)
    ensures var python, py, bare := FindAll(text, PythonOpen), FindAll(text, PyOpen), FindAll(text, BareOpen);
      ExtractCodeFromMessage(text) ==
        if python != [] then Strip(python[0])
        else if py != [] then Strip(py[0])
        else if bare != [] then Strip(bare[0])
        else Strip(text)
  {
    var ps := MessagePatterns;
    var python, py := FindAll(text, PythonOpen), FindAll(text, PyOpen);
    assert ps[1..] == [PyOpen, BareOpen];
    assert ps[1..][1..] == [BareOpen];
    assert FirstMatchStripped(text, ps) ==
      if python != [] then Strip(python[0]) else FirstMatchStripped(text, [PyOpen, BareOpen]);
    assert FirstMatchStripped(text, [PyOpen, BareOpen]) ==
      if py != [] then Strip(py[0]) else FirstMatchStripped(text, [BareOpen]);
    LastPattern(text);
  }

  /** The last step of the pattern list: the bare fence, else the stripped text. */
  lemma LastPattern(text: string)
    ensures FirstMatchStripped(text, [BareOpen]) ==
      if FindAll(text, BareOpen) != [] then Strip(FindAll(text, BareOpen)[0]) else Strip(text)
  {
    assert [BareOpen][1..] == [];
  }

  /** Text without any fence passes through, only stripped. */
  lemma ExtractCodePassthrough(text: string)
    requires NoFence(text)
    ensures ExtractCodeFromMessage(text) == Strip(text)
  {
    ExtractCodeOrder(text);
    NoFenceNoBlocks(text, PythonOpen);
    NoFenceNoBlocks(text, PyOpen);
    NoFenceNoBlocks(text, BareOpen);
  }

  /** Extracting from extracted code changes nothing: a matched block holds no fence, and
      stripped fence-free text has no block to match, while text without blocks keeps having
      none once stripped. */
  lemma ExtractCodeIdempotent(text: string)
    ensures ExtractCodeFromMessage(ExtractCodeFromMessage(text)) == ExtractCodeFromMessage(text)
  {
    var code := ExtractCodeFromMessage(text);
    ExtractCodeOrder(text);
    var python, py, bare := FindAll(text, PythonOpen), FindAll(text, PyOpen), FindAll(text, BareOpen);
    if python != [] || py != [] || bare != [] {
      var block := if python != [] then python[0] else if py != [] then py[0] else bare[0];
      StrippedBlockIsFixed(block);
    } else {
      var k := StripStart(text);
      NoBlocksInfix(code, text, k, PythonOpen);
      NoBlocksInfix(code, text, k, PyOpen);
      NoBlocksInfix(code, text, k, BareOpen);
      ExtractCodeOrder(code);
      StripStripped(code);
    }
  }

  /** A stripped block body holds no closing fence, so extraction passes it through. */
  lemma StrippedBlockIsFixed(block: string)
    requires NoFence(block)
    ensures ExtractCodeFromMessage(Strip(block)) == Strip(block)
  {
    var code := Strip(block);
    assert NoFence(code) by {
      forall j | IsAt(code, Close, j) ensures false {
        IsAtInfix(code, block, StripStart(block), Close, j);
      }
    }
    ExtractCodePassthrough(code);
    StripStripped(code);
  }

  // ---------------------------------------------------------------- choosing the generated tests

  /** `generate_tests` reads the test-writing task's output when `run` reported at least two
      task outputs, and the aggregate output otherwise. */
  function TestsSource(r: RunResult): (s: string)
    ensures |r.tasksOutput| >= 2 ==> s == r.tasksOutput[1]
    ensures |r.tasksOutput| < 2 ==> s == r.raw
  {
    if |r.tasksOutput| >= 2 then r.tasksOutput[1] else r.raw
  }

  /** When the kickoff ran the three declared tasks and reported them in order, the tests are
      read from the `write_tests_task` output; without per-task outputs, from the aggregate. */
  lemma TestsComeFromWriteStage(out: CrewOutput)
    ensures out.tasksOutput.Some? && CompletedInOrder(out.tasksOutput.value) ==>
      out.tasksOutput.value[1].task == WriteTests && TestsSource(Run(out)) == out.tasksOutput.value[1].raw
    ensures out.tasksOutput.None? ==> TestsSource(Run(out)) == out.raw
  {
  }

  /** The longest block, the first of equally long ones. */
  function Longest(blocks: seq<string>): (b: string)
    requires |blocks| > 0
  {
    blocks[LongestIndex(blocks)]
  }

  /** The block selection of `generate_tests` (the `if tests_content:` part and the return). */
  function ExtractTests(content: string): (tests: Option<string>)
    ensures tests.Some? ==> Stripped(tests.value)
    ensures content == "" ==> tests == None
  {
    var chosen := ChosenBlock(content);
    if chosen != "" then Some(Strip(chosen)) else None
  }

  /** The text the selection keeps before stripping: the longest python block when the python
      marker occurs and a block matches; else, when no python marker but some fence occurs, the
      longest bare block if one matches; else the content itself. */
  function ChosenBlock(content: string): (chosen: string)
    ensures chosen == content || NoFence(chosen)
  {
    if content == "" then content
    else if Contains(content, PythonMarker) then
      var blocks := FindAll(content, PythonOpen);
      if blocks != [] then Longest(blocks) else content
    else if Contains(content, Close) then
      var blocks := FindAll(content, BareOpen);
      if blocks != [] then Longest(blocks) else content
    else content
  }

  /** Either a fence-free block was chosen, or the content itself because no block of the
      pattern in force matched. */
  lemma ChosenBlockCases(content: string)
    ensures var chosen := ChosenBlock(content);
      || NoFence(chosen)
      || (chosen == content && FindAll(content, PythonOpen) == [] &&
          (!Contains(content, PythonMarker) ==> !Contains(content, Close) || FindAll(content, BareOpen) == []))
  {
    var python := FindAll(content, PythonOpen);
    if python != [] {
      BlockImpliesMarker(content);
    }
  }

  /** With a python block present, the tests are the (stripped) longest python block, the
      earliest of equally long ones; an empty block yields no tests. */
  lemma ExtractTestsLongestPython(content: string)
    requires FindAll(content, PythonOpen) != []
    ensures var blocks := FindAll(content, PythonOpen);
      exists k :: 0 <= k < |blocks|
        && (forall j :: 0 <= j < |blocks| ==> |blocks[j]| <= |blocks[k]|)
        && (forall j :: 0 <= j < k ==> |blocks[j]| < |blocks[k]|)
        && ExtractTests(content) == (if blocks[k] == "" then None else Some(Strip(blocks[k])))
  {
    var blocks := FindAll(content, PythonOpen);
    PythonChoice(content);
    var k := LongestIndex(blocks);
  }

  lemma PythonChoice(content: string)
    requires FindAll(content, PythonOpen) != []
    ensures var blocks := FindAll(content, PythonOpen);
      ChosenBlock(content) == blocks[LongestIndex(blocks)]
  {
    BlockImpliesMarker(content);
  }

  /** With no python marker but some bare block, the tests are the longest bare block. */
  lemma ExtractTestsLongestBare(content: string)
    requires !Contains(content, PythonMarker) && FindAll(content, BareOpen) != []
    ensures var blocks := FindAll(content, BareOpen);
      exists k :: 0 <= k < |blocks|
        && (forall j :: 0 <= j < |blocks| ==> |blocks[j]| <= |blocks[k]|)
        && (forall j :: 0 <= j < k ==> |blocks[j]| < |blocks[k]|)
        && ExtractTests(content) == (if blocks[k] == "" then None else Some(Strip(blocks[k])))
  {
    var blocks := FindAll(content, BareOpen);
    BareChoice(content);
    var k := LongestIndex(blocks);
  }

  lemma BareChoice(content: string)
    requires !Contains(content, PythonMarker) && FindAll(content, BareOpen) != []
    ensures var blocks := FindAll(content, BareOpen);
      ChosenBlock(content) == blocks[LongestIndex(blocks)]
  {
    var p: nat, q: nat :| BlockAt(content, BareOpen, p, q);
    assert IsAt(content, Close, q);
    ContainsIff(content, Close);
  }

  /** A python marker without a matching python block does not fall back to bare blocks: the
      whole content is returned, stripped. */
  lemma ExtractTestsMarkerWithoutBlock(content: string)
    requires Contains(content, PythonMarker) && FindAll(content, PythonOpen) == []
    ensures ExtractTests(content) == Some(Strip(content))
  {
  }

  /** Fence-free content is returned stripped. */
  lemma ExtractTestsPassthrough(content: string)
    requires content != "" && NoFence(content)
    ensures ExtractTests(content) == Some(Strip(content))
  {
    assert !Contains(content, Close);
  }

  /** Running the selection again on its own non-empty result returns that result. */
  lemma ExtractTestsIdempotent(content: string)
    requires ExtractTests(content).Some? && ExtractTests(content).value != ""
    ensures ExtractTests(ExtractTests(content).value) == ExtractTests(content)
  {
    var y := ExtractTests(content).value;
    var chosen := ChosenBlock(content);
    assert y == Strip(chosen);
    StripStripped(y);
    ChosenBlockCases(content);
    if NoFence(chosen) {
      NoFenceOfStripped(chosen);
      ExtractTestsPassthrough(y);
    } else {
      FallbackIdempotent(content);
    }
  }

  /** When the content itself was kept, its stripped form is kept again: stripping neither
      removes the python marker nor creates a block or a fence. */
  lemma FallbackIdempotent(content: string)
    requires Strip(content) != ""
    requires FindAll(content, PythonOpen) == []
    requires !Contains(content, PythonMarker) ==> !Contains(content, Close) || FindAll(content, BareOpen) == []
    ensures ExtractTests(Strip(content)) == Some(Strip(content))
  {
    var y := Strip(content);
    var k := StripStart(content);
    StripStripped(y);
    if Contains(content, PythonMarker) {
      ContainsStrip(content, PythonMarker);
      NoBlocksInfix(y, content, k, PythonOpen);
      assert ChosenBlock(y) == y;
    } else {
      if Contains(y, PythonMarker) { ContainsInfix(y, content, k, PythonMarker); }
      if Contains(y, Close) {
        ContainsInfix(y, content, k, Close);
        NoBlocksInfix(y, content, k, BareOpen);
      }
      assert ChosenBlock(y) == y;
    }
  }

  /** Stripping cannot create a fence. */
  lemma NoFenceOfStripped(block: string)
    requires NoFence(block)
    ensures NoFence(Strip(block))
  {
    forall j | IsAt(Strip(block), Close, j) ensures false {
      IsAtInfix(Strip(block), block, StripStart(block), Close, j);
    }
  }

  /** `generate_tests`: `None` when the pipeline raised, otherwise the selection above applied
      to the chosen task output. */
  function GenerateTests(outcome: Option<RunResult>): (tests: Option<string>)
    ensures outcome.None? ==> tests.None?
    ensures tests.Some? ==> Stripped(tests.value) && TestsSource(outcome.value) != ""
  {
    match outcome
    case None => None
    case Some(r) => ExtractTests(TestsSource(r))
  }

  // ---------------------------------------------------------------- the handlers' replies

  /** The substrings any of which makes a message "look like Python code". */
  const Keywords: seq<string> := ["def ", "class ", "import ", "=", "return"]

  predicate LooksLikePython(code: string) {
    exists k :: 0 <= k < |Keywords| && Contains(code, Keywords[k])
  }

  /** Replies longer than this many characters are sent as a document. */
  const LongReply: nat := 3500

  datatype CodeReply =
    | RateLimited(wait: int)
    | NoCodeFound
    | NotPython
    | TestsAsText(tests: string)
    | TestsAsFile(tests: string)
    | GenerationFailed

  /** The replies that carry tests. */
  predicate Delivered(r: CodeReply) {
    r.TestsAsText? || r.TestsAsFile?
  }

  /** The admission checks of `handle_code_message`, in order: the rate limiter's verdict, an
      empty extraction, the keyword filter. `None` means the code goes on to the pipeline. */
  function CodeGate(allowed: bool, wait: int, text: string): (rejection: Option<CodeReply>)
    ensures !allowed ==> rejection == Some(RateLimited(wait))
    ensures rejection.None? <==>
      allowed && ExtractCodeFromMessage(text) != "" && LooksLikePython(ExtractCodeFromMessage(text))
    ensures rejection.Some? ==> !Delivered(rejection.value) && !rejection.value.GenerationFailed?
  {
    if !allowed then Some(RateLimited(wait))
    else
      var code := ExtractCodeFromMessage(text);
      if code == "" then Some(NoCodeFound)
      else if !LooksLikePython(code) then Some(NotPython)
      else None
  }

  /** The reply once generation returned: non-empty tests are sent, as a document when long. */
  function CodeDelivery(tests: Option<string>): (r: CodeReply)
    ensures Delivered(r) <==> tests.Some? && tests.value != ""
    ensures Delivered(r) ==> r.tests == tests.value && (r.TestsAsFile? <==> |r.tests| > LongReply)
    ensures !Delivered(r) ==> r == GenerationFailed
  {
    match tests
    case Some(t) =>
      if t == "" then GenerationFailed
      else if |t| > LongReply then TestsAsFile(t) else TestsAsText(t)
    case None => GenerationFailed
  }

  /** What `handle_code_message` answers, given the rate limiter's verdict, the message text and
      the pipeline's response to a piece of code. */
  function CodeMessageReply(allowed: bool, wait: int, text: string, crew: string -> Option<RunResult>): (r: CodeReply)
    ensures CodeGate(allowed, wait, text).Some? ==> r == CodeGate(allowed, wait, text).value
    ensures CodeGate(allowed, wait, text).None? ==> r.GenerationFailed? || Delivered(r)
  {
    match CodeGate(allowed, wait, text)
    case Some(rejection) => rejection
    case None => CodeDelivery(GenerateTests(crew(ExtractCodeFromMessage(text))))
  }

  /** The gate's order: the rate limit first, then an empty extraction, then the keyword
      filter; a delivered reply is exactly the non-empty tests generated from the extracted
      code, and a rejected message never reaches the pipeline. */
  lemma CodeGateOrder(allowed: bool, wait: int, text: string, crew: string -> Option<RunResult>,
                      other: string -> Option<RunResult>)
    ensures !allowed ==> CodeMessageReply(allowed, wait, text, crew) == RateLimited(wait)
    ensures allowed && ExtractCodeFromMessage(text) == "" ==> CodeMessageReply(allowed, wait, text, crew) == NoCodeFound
    ensures allowed && ExtractCodeFromMessage(text) != "" && !LooksLikePython(ExtractCodeFromMessage(text)) ==>
      CodeMessageReply(allowed, wait, text, crew) == NotPython
    ensures var r := CodeMessageReply(allowed, wait, text, crew);
      Delivered(r) ==>
        && allowed && LooksLikePython(ExtractCodeFromMessage(text))
        && GenerateTests(crew(ExtractCodeFromMessage(text))) == Some(r.tests) && r.tests != ""
        && (r.TestsAsFile? <==> |r.tests| > LongReply)
    ensures CodeGate(allowed, wait, text).Some? ==>
      CodeMessageReply(allowed, wait, text, crew) == CodeGate(allowed, wait, text).value
        == CodeMessageReply(allowed, wait, text, other)
  {
  }

  /** Text without a backtick holds no fence. */
  lemma NoBacktickNoFence(t: string)
    requires forall i :: 0 <= i < |t| ==> t[i] != '`'
    ensures NoFence(t)
  {
    forall j: nat | j < |t| ensures !IsAt(t, Close, j) {
      assert t[j] != Close[0];
    }
  }

  /** A stripped, fence-free text that passes the keyword filter reaches the pipeline
      unchanged once admitted. */
  lemma FastPathDispatch(text: string, crew: string -> Option<RunResult>)
    requires text != "" && Stripped(text) && NoFence(text) && LooksLikePython(text)
    ensures ExtractCodeFromMessage(text) == text
    ensures CodeGate(true, 0, text) == None
    ensures CodeMessageReply(true, 0, text, crew) == CodeDelivery(GenerateTests(crew(text)))
  {
    ExtractCodePassthrough(text);
    StripStripped(text);
  }

  /** The scenario of a plain one-line function sent by a user who never selected a mode: it
      is admitted as that user's first request and handed to the pipeline unchanged. */
  lemma PlainFunctionIsDispatched(text: string, now: real, crew: string -> Option<RunResult>)
    requires text == "def add(a,b): return a+b"
    ensures RateStep(None, now).allowed
    ensures CodeMessageReply(RateStep(None, now).allowed, RateStep(None, now).wait, text, crew)
      == CodeDelivery(GenerateTests(crew(text)))
  {
    assert forall i :: 0 <= i < |text| ==> text[i] != '`';
    NoBacktickNoFence(text);
    assert IsAt(text, Keywords[0], 0);
    assert LooksLikePython(text);
    FirstRequestAdmitted(now);
    FastPathDispatch(text, crew);
  }

  datatype DocumentReply =
    | NotPythonFile
    | DocumentRateLimited(wait: int)
    | TestsDocument(fileName: string, tests: string)
    | DocumentGenerationFailed

  /** What `handle_document` answers once the file passed the extension check and the rate
      limiter returned its verdict: the downloaded text goes to the pipeline unfiltered, and its
      tests are always sent as a document named `test_<file name>` holding exactly the
      non-empty generated tests. */
  function DocumentReplyFor(fileName: string, allowed: bool, wait: int, content: string,
                            crew: string -> Option<RunResult>): (r: DocumentReply)
    ensures !allowed <==> r == DocumentRateLimited(wait)
    ensures r.TestsDocument? <==> allowed && GenerateTests(crew(content)).Some? && GenerateTests(crew(content)).value != ""
    ensures r.TestsDocument? ==> r.fileName == "test_" + fileName && GenerateTests(crew(content)) == Some(r.tests)
    ensures !r.NotPythonFile?
  {
    if !allowed then DocumentRateLimited(wait)
    else match GenerateTests(crew(content))
      case Some(t) => if t == "" then DocumentGenerationFailed else TestsDocument("test_" + fileName, t)
      case None => DocumentGenerationFailed
  }

  // ---------------------------------------------------------------- the bot's mutable state

  /** The module-wide `RATE_LIMIT` and `USER_STATES` dictionaries, and the handlers that read
      and write them. Calls are taken one at a time. */
  class Bot {
    var rateLimit: map<int, Window>
    var userStates: map<int, UserState>

    ghost predicate Valid()
      reads this
    {
      forall u :: u in rateLimit ==> WellFormed(rateLimit[u])
    }

    constructor ()
      ensures Valid() && rateLimit == map[] && userStates == map[]
    {
      rateLimit := map[];
      userStates := map[];
    }

    /** `check_rate_limit(user_id)` with the clock reading `now` passed in. */
    method CheckRateLimit(userId: int, now: real) returns (allowed: bool, wait: int)
      requires Valid()
      modifies this
      ensures Valid()
      ensures var d := RateStep(Get(old(rateLimit), userId), now);
        allowed == d.allowed && wait == d.wait && rateLimit == old(rateLimit)[userId := d.window]
      ensures userStates == old(userStates)
    {
      ghost var d := RateStep(Get(rateLimit, userId), now);
      StepKeepsWellFormed(Get(rateLimit, userId), now);
      if userId !in rateLimit {
        rateLimit := rateLimit[userId := Window([], now)];
      }
      var userData := rateLimit[userId];
      if now - userData.lastReset > WindowSeconds {
        userData := Window([], now);
        rateLimit := rateLimit[userId := userData];
      }
      if |userData.requests| >= MaxRequests {
        allowed, wait := false, SecondsLeft(userData, now);
        return;
      }
      rateLimit := rateLimit[userId := Window(userData.requests + [now], userData.lastReset)];
      allowed, wait := true, 0;
    }

    /** `button_callback`: the inline-keyboard choices. */
    method ButtonCallback(userId: int, data: string)
      requires Valid()
      modifies this
      ensures Valid()
      ensures userStates == NextUserStates(old(userStates), userId, data)
      ensures rateLimit == old(rateLimit)
    {
      if data == "mode_code" {
        userStates := userStates[userId := WaitingCode];
      } else if data == "mode_file" {
        userStates := userStates[userId := WaitingFile];
      } else if data == "cancel" {
        userStates := userStates - {userId};
      }
    }

    /** `handle_code_message`: a rate-limit slot is taken before the text is looked at; the
        user's state is cleared only when tests are delivered. */
    method HandleCodeMessage(userId: int, text: Option<string>, now: real,
                             crew: string -> Option<RunResult>) returns (reply: CodeReply)
      requires Valid()
      modifies this
      ensures Valid()
      ensures var d := RateStep(Get(old(rateLimit), userId), now);
        && rateLimit == old(rateLimit)[userId := d.window]
        && reply == CodeMessageReply(d.allowed, d.wait, text.GetOr(""), crew)
      ensures userStates == if Delivered(reply) then old(userStates) - {userId} else old(userStates)
    {
      var allowed, wait := CheckRateLimit(userId, now);
      if !allowed {
        return RateLimited(wait);
      }
      var code := ExtractCodeFromMessage(text.GetOr(""));
      if code == "" {
        return NoCodeFound;
      }
      if !LooksLikePython(code) {
        return NotPython;
      }
      var tests := GenerateTests(crew(code));
      if tests.Some? && tests.value != "" {
        userStates := userStates - {userId};
        if |tests.value| > LongReply {
          reply := TestsAsFile(tests.value);
        } else {
          reply := TestsAsText(tests.value);
        }
      } else {
        reply := GenerationFailed;
      }
    }

    /** `handle_document`: a file whose name does not end in `.py` is refused before any
        rate-limit slot is taken. */
    method HandleDocument(userId: int, fileName: string, content: string, now: real,
                          crew: string -> Option<RunResult>) returns (reply: DocumentReply)
      requires Valid()
      modifies this
      ensures Valid()
      ensures !EndsWith(fileName, ".py") ==>
        reply == NotPythonFile && rateLimit == old(rateLimit) && userStates == old(userStates)
      ensures EndsWith(fileName, ".py") ==>
        var d := RateStep(Get(old(rateLimit), userId), now);
        && rateLimit == old(rateLimit)[userId := d.window]
        && reply == DocumentReplyFor(fileName, d.allowed, d.wait, content, crew)
      ensures userStates == if reply.TestsDocument? then old(userStates) - {userId} else old(userStates)
    {
      if !EndsWith(fileName, ".py") {
        return NotPythonFile;
      }
      var allowed, wait := CheckRateLimit(userId, now);
      if !allowed {
        return DocumentRateLimited(wait);
      }
      var tests := GenerateTests(crew(content));
      if tests.Some? && tests.value != "" {
        userStates := userStates - {userId};
        reply := TestsDocument("test_" + fileName, tests.value);
      } else {
        reply := DocumentGenerationFailed;
      }
    }
  }
}
