/**
 * The session script of main.py: ask the question agent, collect four
 * answers at the console, have the marking agent mark them, and hand
 * everything to the update agent.
 *
 * The three LangChain agents are inputs. Each one is seen from outside as
 * the messages it appends to the conversation it is given (its tool calls,
 * their results and its final reply); what it does inside is not modelled.
 */
module TutorSession {
  import opened Decimal
  import opened Text

  datatype Role = Human | Ai | ToolResult

  datatype Message = Message(role: Role, content: string)

  /** An agent: given the conversation, the messages it adds to it. */
  type Agent = seq<Message> -> seq<Message>

  /** The stages of a session, in the order the script runs them. */
  datatype Stage = Questioning | Marking | Updating

  /** One `invoke` of a stage's agent: the messages it was given and the text taken from its reply. */
  datatype StageCall = StageCall(stage: Stage, input: seq<Message>, output: string)

  datatype Session = Session(
    questions: string,
    answerPrompts: seq<string>,
    studentAnswers: string,
    markingPrompt: string,
    marking: string,
    updatePrompt: string,
    confirmation: string,
    trace: seq<StageCall>)

  const QuestionCount: nat := 4
  const QuestionsHeader := "Questions the student was asked: "
  /** The two characters '/' and 'n', not a line break. */
  const SlashN := "/n"
  const AnswersHeader := "Answers the student gave: "
  const FeedbackHeader := "The feedback the student got: "

  /** `agent.invoke({"messages": [{"role": "user", "content": prompt}]})["messages"]`. */
  function Invoke(agent: Agent, prompt: string): (conversation: seq<Message>)
    ensures |conversation| >= 1 && conversation[0] == Message(Human, prompt)
  {
    [Message(Human, prompt)] + agent([Message(Human, prompt)])
  }

  /** `...["messages"][-1].content`: the text of the conversation's last message. */
  function StageOutput(agent: Agent, prompt: string): string {
    var conversation := Invoke(agent, prompt);
    conversation[|conversation| - 1].content
  }

  /** The stage's text is the agent's last added message, or the prompt itself if it added none. */
  lemma StageOutputIsLastReply(agent: Agent, prompt: string)
    ensures var added := agent([Message(Human, prompt)]);
            StageOutput(agent, prompt) == if added == [] then prompt else added[|added| - 1].content
  {
  }

  /** The console prompt for answer i (0-based): `f"Question {i+1}/4: "`. */
  function AnswerPrompt(i: nat): string {
    "Question " + NatToString(i + 1) + "/4: "
  }

  /** `Student_answers` after the answers so far: each one followed by a space. */
  function AnswerText(answers: seq<string>): string
    decreases |answers|
  {
    if answers == [] then ""
    else AnswerText(answers[..|answers| - 1]) + answers[|answers| - 1] + " "
  }

  /** Prompt2. */
  function MarkingPrompt(questions: string, studentAnswers: string): string {
    QuestionsHeader + questions + SlashN + AnswersHeader + studentAnswers
  }

  /** Prompt3. */
  function UpdatePrompt(markingPrompt: string, marking: string): string {
    markingPrompt + FeedbackHeader + marking
  }

  /**
   * The answer loop: `input` is called four times with the prompts
   * "Question 1/4: " .. "Question 4/4: ", and each line read is appended to
   * `Student_answers` followed by a space. `console` holds the lines the
   * student types, in order.
   */
  method CollectAnswers(console: seq<string>) returns (studentAnswers: string, prompts: seq<string>)
    requires |console| >= QuestionCount
    ensures prompts == ["Question 1/4: ", "Question 2/4: ", "Question 3/4: ", "Question 4/4: "]
    ensures studentAnswers == AnswerText(console[..QuestionCount])
    ensures |studentAnswers| == TotalLength(console[..QuestionCount]) + QuestionCount
  {
    studentAnswers := "";
    prompts := [];
    for i := 0 to QuestionCount
      invariant |prompts| == i
      invariant forall j :: 0 <= j < i ==> prompts[j] == AnswerPrompt(j)
      invariant studentAnswers == AnswerText(console[..i])
      invariant |studentAnswers| == TotalLength(console[..i]) + i
    {
      prompts := prompts + [AnswerPrompt(i)];
      var answer := console[i];
      assert console[..i + 1] == console[..i] + [answer];
      TotalLengthAppend(console[..i], answer);
      studentAnswers := studentAnswers + answer + " ";
    }
    AnswerPromptsSpelled();
  }

  /** The four console prompts, spelled out. */
  lemma AnswerPromptsSpelled()
    ensures AnswerPrompt(0) == "Question 1/4: " && AnswerPrompt(1) == "Question 2/4: "
    ensures AnswerPrompt(2) == "Question 3/4: " && AnswerPrompt(3) == "Question 4/4: "
  {
    assert NatToString(1) == "1" && NatToString(2) == "2" && NatToString(3) == "3" && NatToString(4) == "4";
  }

  /**
   * One session, from the syllabus file's content to the update agent's
   * confirmation: the three stages run once each, in order, and each
   * stage's prompt is built only from what earlier steps produced. The
   * order is carried by the data: Prompt2 needs the first stage's output
   * and Prompt3 the second's, so no stage can run before the one it reads.
   */
  method RunSession(syllabus: string, console: seq<string>, questioner: Agent, marker: Agent, updater: Agent)
    returns (s: Session)
    requires |console| >= QuestionCount
    ensures s.questions == StageOutput(questioner, syllabus)
    ensures s.answerPrompts == ["Question 1/4: ", "Question 2/4: ", "Question 3/4: ", "Question 4/4: "]
    ensures s.studentAnswers == AnswerText(console[..QuestionCount])
    ensures s.markingPrompt == MarkingPrompt(StageOutput(questioner, syllabus), AnswerText(console[..QuestionCount]))
    ensures s.marking == StageOutput(marker, s.markingPrompt)
    ensures s.updatePrompt == UpdatePrompt(s.markingPrompt, s.marking)
    ensures s.confirmation == StageOutput(updater, s.updatePrompt)
    ensures s.trace == [
      StageCall(Questioning, [Message(Human, syllabus)], s.questions),
      StageCall(Marking, [Message(Human, s.markingPrompt)], s.marking),
      StageCall(Updating, [Message(Human, s.updatePrompt)], s.confirmation)]
  {
    var trace: seq<StageCall> := [];

    var questions := StageOutput(questioner, syllabus);
    trace := trace + [StageCall(Questioning, [Message(Human, syllabus)], questions)];

    var studentAnswers, prompts := CollectAnswers(console);

    var prompt2 := QuestionsHeader + questions + SlashN + AnswersHeader + studentAnswers;
    var marking := StageOutput(marker, prompt2);
    trace := trace + [StageCall(Marking, [Message(Human, prompt2)], marking)];

    var prompt3 := prompt2 + FeedbackHeader + marking;
    var confirmation := StageOutput(updater, prompt3);
    trace := trace + [StageCall(Updating, [Message(Human, prompt3)], confirmation)];

    s := Session(questions, prompts, studentAnswers, prompt2, marking, prompt3, confirmation, trace);
  }

  /** Peeling the first answer off the front: answer, space, then the rest. */
  lemma {:induction false} AnswerTextFront(answers: seq<string>)
    requires answers != []
    ensures AnswerText(answers) == answers[0] + " " + AnswerText(answers[1..])
    decreases |answers|
  {
    if |answers| > 1 {
      var init, last := answers[..|answers| - 1], answers[|answers| - 1];
      AnswerTextFront(init);
      assert init[1..] == answers[1..][..|answers[1..]| - 1];
      var middle := AnswerText(init[1..]);
      assert AnswerText(answers[1..]) == middle + last + " ";
      calc {
        AnswerText(answers);
        AnswerText(init) + last + " ";
        answers[0] + " " + middle + last + " ";
        { ConcatRegroup(answers[0] + " ", middle, last); }
        answers[0] + " " + (middle + last + " ");
      }
    } else {
      assert answers[..0] == [];
    }
  }

  lemma ConcatRegroup(front: string, middle: string, last: string)
    ensures front + middle + last + " " == front + (middle + last + " ")
  {
  }

  /** The text of the first i answers opens the text of all of them. */
  lemma {:induction false} AnswerTextPrefix(answers: seq<string>, i: nat)
    requires i <= |answers|
    ensures AnswerText(answers[..i]) <= AnswerText(answers)
    decreases |answers| - i
  {
    if i < |answers| {
      assert answers[..i + 1][..i] == answers[..i];
      AnswerTextPrefix(answers, i + 1);
    } else {
      assert answers[..i] == answers;
    }
  }

  lemma {:induction false} AnswerTextLength(answers: seq<string>)
    ensures |AnswerText(answers)| == TotalLength(answers) + |answers|
    decreases |answers|
  {
    if answers != [] {
      AnswerTextFront(answers);
      AnswerTextLength(answers[1..]);
    }
  }

  /**
   * Answer i sits, followed by one space, right after the earlier answers
   * and their spaces: the answers appear whole and in question order.
   */
  lemma AnswerAt(answers: seq<string>, i: nat)
    requires i < |answers|
    ensures var offset := TotalLength(answers[..i]) + i;
            var text := AnswerText(answers);
            offset + |answers[i]| < |text| &&
            text[offset..offset + |answers[i]|] == answers[i] && text[offset + |answers[i]|] == ' '
  {
    AnswerTextPrefix(answers, i + 1);
    AnswerTextLength(answers[..i]);
    assert answers[..i + 1][..i] == answers[..i];
    var before := AnswerText(answers[..i]);
    var upTo := AnswerText(answers[..i + 1]);
    assert upTo == before + answers[i] + " ";
  }

  /** Answers without spaces can be recovered by splitting on spaces; the trailing space leaves one empty piece. */
  lemma {:induction false} SplitAnswers(answers: seq<string>)
    requires forall i :: 0 <= i < |answers| ==> ' ' !in answers[i]
    ensures Split(AnswerText(answers), ' ') == answers + [""]
    decreases |answers|
  {
    if answers != [] {
      AnswerTextFront(answers);
      SplitAfter(answers[0], AnswerText(answers[1..]), ' ');
      SplitAnswers(answers[1..]);
      assert [answers[0]] + (answers[1..] + [""]) == answers + [""];
    }
  }

  /**
   * The "/n" in Prompt2 is two characters, a slash and the letter n: Prompt2 holds a line
   * break exactly when the questions or the answers hold one, and "/n" stands between them.
   */
  lemma MarkingPromptOneLine(questions: string, studentAnswers: string)
    ensures '\n' in MarkingPrompt(questions, studentAnswers) <==> '\n' in questions || '\n' in studentAnswers
    ensures MarkingPrompt(questions, studentAnswers)[|QuestionsHeader| + |questions|..][..2] == ['/', 'n']
  {
    var p := MarkingPrompt(questions, studentAnswers);
    assert p == QuestionsHeader + (questions + (SlashN + (AnswersHeader + studentAnswers)));
    assert p[|QuestionsHeader| + |questions|..] == SlashN + (AnswersHeader + studentAnswers);
    NoLineBreak(QuestionsHeader);
    NoLineBreak(SlashN);
    NoLineBreak(AnswersHeader);
  }

  /** Fixed prompt text without a line break. */
  lemma NoLineBreak(text: string)
    requires text in {QuestionsHeader, SlashN, AnswersHeader}
    ensures '\n' !in text
  {
    forall k | 0 <= k < |text| ensures text[k] != '\n' {
    }
  }

  /** Prompt2 determines the questions and the answers once the length of the questions is known. */
  lemma MarkingPromptInjective(q1: string, a1: string, q2: string, a2: string)
    requires |q1| == |q2|
    ensures MarkingPrompt(q1, a1) == MarkingPrompt(q2, a2) <==> q1 == q2 && a1 == a2
  {
    if MarkingPrompt(q1, a1) == MarkingPrompt(q2, a2) {
      var p1 := MarkingPrompt(q1, a1);
      var p2 := MarkingPrompt(q2, a2);
      var h := |QuestionsHeader|;
      assert p1[h..h + |q1|] == q1;
      assert p2[h..h + |q2|] == q2;
      var k := h + |q1| + |SlashN| + |AnswersHeader|;
      assert p1[k..] == a1;
      assert p2[k..] == a2;
    }
  }

  /** Prompt3 extends Prompt2: Prompt2 is a prefix, then the feedback header and the marking. */
  lemma UpdatePromptExtends(markingPrompt: string, marking: string)
    ensures markingPrompt <= UpdatePrompt(markingPrompt, marking)
    ensures UpdatePrompt(markingPrompt, marking)[|markingPrompt|..] == FeedbackHeader + marking
  {
    var p := UpdatePrompt(markingPrompt, marking);
    assert p == markingPrompt + (FeedbackHeader + marking);
  }
}
