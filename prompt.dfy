/**
 * Prompt synthesis, the displayed metrics and the assistant's reply, all
 * built by string concatenation from the retrieval result and the input.
 */
module Prompt {
  import opened Text
  import opened Retrieval

  const MemoryHeader: string := "[RETRIEVED MEMORIES]\n"
  const UserHeader: string := "[USER MESSAGE]\n"
  const Instruction: string := "[SYSTEM INSTRUCTION]\n请结合以上记忆，给出个性化且连贯的回复。"

  const RecalledOpening: string := "（已检索到相关记忆："
  const RecalledClosing: string := "」，并结合历史记忆为你作答。"
  const NothingRecalledClosing: string := "」。暂无相关历史记忆，这是一次全新对话。"

  // ---------------------------------------------------------------------
  // Scores as Python prints them.

  function Digit(d: int): char
    requires 0 <= d <= 9
  {
    "0123456789"[d]
  }

  /**
   * Python's `str(round(h / 100, 2))` for 0 < h < 100: "0." and the
   * hundredths without a trailing zero ("0.5", "0.45", "0.05").
   */
  function ScoreText(h: int): (t: string)
    requires 0 < h < 100
    ensures |t| == 3 || |t| == 4
    ensures t[..2] == "0." && t[|t| - 1] != '0'
  {
    "0." + [Digit(h / 10)] + (if h % 10 == 0 then "" else [Digit(h % 10)])
  }

  function DigitValue(c: char): int {
    if '0' <= c <= '9' then c as int - '0' as int else 0
  }

  /** Reads the hundredths back from a printed score. */
  function ParseScore(t: string): int
    requires |t| >= 3
  {
    10 * DigitValue(t[2]) + (if |t| >= 4 then DigitValue(t[3]) else 0)
  }

  /** Printing loses nothing: every score reads back as itself, so distinct scores print differently. */
  lemma ScoreTextRoundTrip(h: int)
    requires 0 < h < 100
    ensures ParseScore(ScoreText(h)) == h
  {
    var t := ScoreText(h);
    assert "0123456789"[h / 10] as int - '0' as int == h / 10;
    assert DigitValue(t[2]) == h / 10;
    if h % 10 != 0 {
      assert "0123456789"[h % 10] as int - '0' as int == h % 10;
      assert DigitValue(t[3]) == h % 10;
    }
  }

  // ---------------------------------------------------------------------
  // The prompt.

  predicate PrintableScores(retrieved: seq<Scored>) {
    forall k :: 0 <= k < |retrieved| ==> 0 < retrieved[k].score < 100
  }

  function Line(r: Scored): string
    requires 0 < r.score < 100
  {
    "- " + r.fact + " (similarity=" + ScoreText(r.score) + ")"
  }

  function Lines(retrieved: seq<Scored>): (lines: seq<string>)
    requires PrintableScores(retrieved)
    ensures |lines| == |retrieved|
  {
    seq(|retrieved|, k requires 0 <= k < |retrieved| => Line(retrieved[k]))
  }

  function MemoryBlock(retrieved: seq<Scored>): string
    requires PrintableScores(retrieved)
  {
    if retrieved == [] then ""
    else MemoryHeader + Join("\n", Lines(retrieved)) + "\n\n"
  }

  function UserBlock(input: string): string {
    UserHeader + input + "\n\n" + Instruction
  }

  /**
   * The prompt opens with the memory block exactly when something was
   * retrieved, and always closes with the user's message and the instruction.
   */
  function BuildPrompt(retrieved: seq<Scored>, input: string): (p: string)
    requires PrintableScores(retrieved)
    ensures retrieved != [] <==> MemoryHeader <= p
    ensures |p| >= |UserBlock(input)| && p[|p| - |UserBlock(input)|..] == UserBlock(input)
  {
    var block, user := MemoryBlock(retrieved), UserBlock(input);
    var p := block + user;
    assert p[|block|..] == user;
    assert retrieved != [] ==> p[..|MemoryHeader|] == block[..|MemoryHeader|] == MemoryHeader;
    assert retrieved == [] ==> p[1] == user[1] == 'U' && MemoryHeader[1] == 'R';
    p
  }

  /** The user's message block can be taken apart again: header, the input verbatim, instruction. */
  lemma UserBlockReadsBack(input: string)
    ensures UserBlock(input)[..|UserHeader|] == UserHeader
    ensures UserBlock(input)[|UserHeader|..|UserHeader| + |input|] == input
    ensures UserBlock(input)[|UserBlock(input)| - |Instruction|..] == Instruction
  {
    var u := UserBlock(input);
    assert u == UserHeader + (input + ("\n\n" + Instruction));
  }

  /** Every retrieved fact is written into the prompt. */
  lemma PromptHoldsRetrievedFacts(retrieved: seq<Scored>, input: string, k: int)
    requires PrintableScores(retrieved) && 0 <= k < |retrieved|
    ensures IsSubstring(retrieved[k].fact, BuildPrompt(retrieved, input))
  {
    var r := retrieved[k];
    var line := Line(r);
    assert ("- " + r.fact)[2..] == r.fact;
    OccursIsSubstring(r.fact, "- " + r.fact, 2);
    SubstringOfConcat(r.fact, "- " + r.fact, " (similarity=" + ScoreText(r.score) + ")");
    assert line == ("- " + r.fact) + (" (similarity=" + ScoreText(r.score) + ")");
    var lines := Lines(retrieved);
    JoinContainsParts("\n", lines, k);
    var joined := Join("\n", lines);
    SubstringTransitive(r.fact, line, joined);
    SubstringOfConcat(r.fact, MemoryHeader, joined);
    SubstringOfConcat(r.fact, MemoryHeader + joined, "\n\n");
    SubstringOfConcat(r.fact, MemoryBlock(retrieved), UserBlock(input));
  }

  // ---------------------------------------------------------------------
  // Metrics. Times are in tenths of a millisecond.

  datatype Metrics = Metrics(retrievalTime: int, promptTokens: int, replyTokens: int, totalTokens: int)

  /** `int(len(prompt) * 1.5)`: the length times one and a half, rounded down. */
  function PromptTokens(prompt: string): (n: nat)
    ensures 2 * n <= 3 * |prompt| < 2 * n + 2
  {
    3 * |prompt| / 2
  }

  /**
   * The turn's metrics: the reported retrieval time is the measured time
   * plus the added latency, the reply's token count is the drawn one, and
   * the total is the sum of the prompt's and the reply's.
   */
  function MakeMetrics(prompt: string, elapsed: nat, latency: int, replyTokens: int): (m: Metrics)
    requires 200 <= latency <= 800 && 40 <= replyTokens <= 120
    ensures elapsed + 200 <= m.retrievalTime <= elapsed + 800
    ensures 40 <= m.replyTokens <= 120
    ensures 2 * m.promptTokens <= 3 * |prompt| < 2 * m.promptTokens + 2
    ensures m.totalTokens == m.promptTokens + m.replyTokens
  {
    var promptTokens := PromptTokens(prompt);
    Metrics(elapsed + latency, promptTokens, replyTokens, promptTokens + replyTokens)
  }

  // ---------------------------------------------------------------------
  // The reply.

  /** The facts the reply names: those of the first two retrieved entries. */
  function HintFacts(retrieved: seq<Scored>): (facts: seq<string>)
    ensures |facts| == Min(2, |retrieved|)
    ensures forall k :: 0 <= k < |facts| ==> facts[k] == retrieved[k].fact
  {
    var top := if |retrieved| <= 2 then retrieved else retrieved[..2];
    seq(|top|, k requires 0 <= k < |top| => top[k].fact)
  }

  /** The recall notice: the opening, the hint facts joined by "、", and its close. */
  function RecallNotice(retrieved: seq<Scored>): string {
    RecalledOpening + Join("、", HintFacts(retrieved)) + "）\n\n"
  }

  function Echo(input: string): string {
    "我已收到：「" + input
  }

  /**
   * The reply opens with the recall notice exactly when something was
   * retrieved, always quotes the input, and otherwise ends with the
   * "no related memory" sentence.
   */
  function Reply(retrieved: seq<Scored>, input: string): (t: string)
    ensures retrieved != [] <==> RecalledOpening <= t
    ensures IsSubstring(Echo(input), t)
    ensures retrieved != [] ==> t == RecallNotice(retrieved) + Echo(input) + RecalledClosing
    ensures retrieved == [] ==> t == Echo(input) + NothingRecalledClosing
  {
    var echo := Echo(input);
    OccursIsSubstring(echo, echo, 0);
    if retrieved != [] then
      var head := RecallNotice(retrieved);
      var t := head + echo + RecalledClosing;
      assert t[..|RecalledOpening|] == RecalledOpening;
      SubstringOfConcat(echo, head, echo);
      SubstringOfConcat(echo, head + echo, RecalledClosing);
      t
    else
      var t := echo + NothingRecalledClosing;
      SubstringOfConcat(echo, echo, NothingRecalledClosing);
      assert t[0] == '我' && RecalledOpening[0] == '（';
      t
  }

  /** The reply names each of the first two retrieved facts. */
  lemma ReplyNamesTopTwo(retrieved: seq<Scored>, input: string, k: int)
    requires 0 <= k < |retrieved| && k < 2
    ensures IsSubstring(retrieved[k].fact, Reply(retrieved, input))
  {
    var facts := HintFacts(retrieved);
    var joined := Join("、", facts);
    JoinContainsParts("、", facts, k);
    SubstringOfConcat(retrieved[k].fact, RecalledOpening, joined);
    SubstringOfConcat(retrieved[k].fact, RecalledOpening + joined, "）\n\n");
    var head := RecallNotice(retrieved);
    SubstringOfConcat(retrieved[k].fact, head, Echo(input));
    SubstringOfConcat(retrieved[k].fact, head + Echo(input), RecalledClosing);
  }
}
