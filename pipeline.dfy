/** The queue file and one run of main() in bot.py: read the questions, ask
    the language model about the first one, post the formatted answer, and
    drop the first line of the file when the post went through. */
module Pipeline {
  import opened Text
  import opened Markdown
  import opened Language

  datatype Option<T> = None | Some(value: T)

  /** read_queries: the stripped, non-blank lines of the file, in file order;
      an unreadable file (None) gives no questions. */
  function ReadQueries(file: Option<seq<string>>): (queries: seq<string>)
    ensures file.None? ==> queries == []
    ensures forall k :: 0 <= k < |queries| ==> queries[k] != [] && Strip(queries[k]) == queries[k]
  {
    match file
    case None => []
    case Some(lines) =>
      var qs := NonBlankStripped(lines);
      forall k | 0 <= k < |qs|
        ensures Strip(qs[k]) == qs[k]
      {
        NonBlankStrippedStripped(lines, k);
      }
      qs
  }

  /** Every non-blank line of a readable file becomes a question, and every
      question comes from a line of the file. */
  lemma ReadQueriesExactly(lines: seq<string>, x: string)
    ensures x in ReadQueries(Some(lines)) <==>
            x != [] && exists i :: 0 <= i < |lines| && Strip(lines[i]) == x
  {
    var qs := ReadQueries(Some(lines));
    if x in qs {
      var k :| 0 <= k < |qs| && qs[k] == x;
      NonBlankStrippedFrom(lines, k);
    }
    if x != [] && exists i :: 0 <= i < |lines| && Strip(lines[i]) == x {
      var i :| 0 <= i < |lines| && Strip(lines[i]) == x;
      NonBlankStrippedKeeps(lines, i);
    }
  }

  /** What the chat-completions call gave back: an HTTP status with the
      answer text, or a failure (network error, timeout, a body without
      choices[0].message.content). */
  datatype AiReply = Response(status: int, content: string) | RequestFailed

  /** The answer gate of get_ai_response: the answer is used only when the
      status is 200 and the text is Russian; such an answer is never empty. */
  function AnswerOf(reply: AiReply): (answer: Option<string>)
    ensures answer.Some? <==> reply.Response? && reply.status == 200 && IsRussian(reply.content)
    ensures answer.Some? ==> answer.value == reply.content && answer.value != []
  {
    if reply.Response? && reply.status == 200 && IsRussian(reply.content) then Some(reply.content)
    else None
  }

  /** How a run of main() ended. */
  datatype Outcome =
    | NoQuestions                                    // the file has no question
    | NoAnswer(query: string)                        // no usable answer
    | SendFailed(query: string, message: string)     // Telegram did not accept the post
    | Posted(query: string, message: string)         // posted; the file lost its first line

  /** The bot's durable state: input.txt as the list of its lines, each with
      its line break; None when the file cannot be read. */
  class Bot {
    var file: Option<seq<string>>

    constructor (file: Option<seq<string>>)
      ensures this.file == file
    {
      this.file := file;
    }

    /** One run of main() after the configuration check. The model's reply
        to the first question and whether Telegram answered 200 are inputs;
        on success the file is rewritten without its first line. */
    method Step(reply: AiReply, delivered: bool) returns (outcome: Outcome)
      modifies this
      ensures var queries := ReadQueries(old(file));
        && (outcome.NoQuestions? <==> queries == [])
        && (!outcome.NoQuestions? ==> outcome.query == queries[0])
        && (outcome.Posted? <==> queries != [] && AnswerOf(reply).Some? && delivered)
        && (outcome.SendFailed? <==> queries != [] && AnswerOf(reply).Some? && !delivered)
        && ((outcome.Posted? || outcome.SendFailed?) ==>
              outcome.message == FormatSpec(AnswerOf(reply).value))
      ensures outcome.Posted? ==> old(file).Some? && |old(file).value| > 0 &&
                                  file == Some(old(file).value[1..])
      ensures !outcome.Posted? ==> file == old(file)
    {
      var queries := ReadQueries(file);
      if queries == [] {
        return NoQuestions;
      }
      var query := queries[0];
      var answer := AnswerOf(reply);
      if answer.None? {
        return NoAnswer(query);
      }
      var message := FormatForTelegram(answer.value);
      if delivered {
        var lines := file.value;
        file := Some(lines[1..]);
        outcome := Posted(query, message);
      } else {
        outcome := SendFailed(query, message);
      }
    }
  }

  /** Dropping the first line of the file consumes the question that was
      processed exactly when that line is not blank. When the file starts
      with a blank line, the blank line goes, the question stays first in
      line, and the next run processes it again. */
  lemma QueryConsumedIff(lines: seq<string>)
    requires ReadQueries(Some(lines)) != []
    ensures lines != []
    ensures Strip(lines[0]) != [] ==>
              ReadQueries(Some(lines[1..])) == ReadQueries(Some(lines))[1..]
    ensures Strip(lines[0]) == [] ==>
              ReadQueries(Some(lines[1..])) == ReadQueries(Some(lines))
  {
    var rest := NonBlankStripped(lines[1..]);
    assert NonBlankStripped(lines) == Kept(lines[0]) + rest;
    if Strip(lines[0]) != [] {
      assert ([Strip(lines[0])] + rest)[1..] == rest;
    }
  }

  /** The scenario of a file that begins with an empty line: the question
      is the first one before and after the first line is dropped. */
  lemma BlankFirstLineKeepsQuestion()
    ensures var q := "Что такое фотосинтез?";
      var lines := ["\n", q + "\n"];
      && ReadQueries(Some(lines)) == [q]
      && ReadQueries(Some(lines[1..])) == [q]
  {
    var q := "Что такое фотосинтез?";
    var lines := ["\n", q + "\n"];
    assert Strip("\n") == [];
    assert Strip(q + "\n") == q by {
      assert LeadingSpace(q + "\n") == 0;
      assert TrailingSpace(q + "\n") == 1;
    }
    assert lines[1..] == [q + "\n"] && [q + "\n"][1..] == [];
    assert NonBlankStripped(lines[1..]) == [q];
  }

  /** One run on that file, with a Russian reply and a successful post: the
      question is posted, the blank line is dropped instead of the question,
      and the question is still first in line for the next run. */
  method BlankFirstLineRun() returns (outcome: Outcome, after: Option<seq<string>>)
    ensures outcome.Posted? && outcome.query == "Что такое фотосинтез?"
    ensures outcome.message == FormatSpec("Да")
    ensures ReadQueries(after) == ["Что такое фотосинтез?"]
  {
    var q := "Что такое фотосинтез?";
    var bot := new Bot(Some(["\n", q + "\n"]));
    BlankFirstLineKeepsQuestion();
    LowerRussian('Д');
    outcome := bot.Step(Response(200, "Да"), true);
    after := bot.file;
  }
}
