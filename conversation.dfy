/** The conversation state of the chat widget: the history of turns and the
    pending input, changed by submitting the input and by the quick-prompt
    buttons. */
module Conversation {
  import opened Text
  import opened Replies

  datatype Role = User | Assistant

  /** One turn of the conversation. */
  datatype Message = Message(role: Role, content: string)

  /** The assistant turn the history starts with. */
  const Greeting: Message := Message(Assistant,
    "Hey there—this studio is tuned for " +
    "rapid experiments and narrative polish. " +
    "Toss me a thought and I'll shape the " +
    "next beat.")

  /** The greeting is not empty. */
  lemma GreetingNonEmpty()
    ensures Greeting.content != []
  {
    assert Greeting.content[0] == 'H';
  }

  /** The two state cells of the widget, as values. */
  datatype State = State(history: seq<Message>, input: string)

  /** The state when the page opens. */
  const Initial: State := State([Greeting], "")

  /** The prompts of the hero section's two buttons. */
  const HeadlinePrompt: string := "Give me a bold launch headline."
  const OutlinePrompt: string := "Outline a 3-step " + "plan" + " to introduce my product."

  /** The texts of the four prompt chips under the conversation. */
  const QuickPrompts: seq<string> := [
    "Sketch a launch plan " + "for a side project.",
    "Give me a creative icebreaker " + "for a remote stand-up.",
    "How can I turn a vague " + "idea into a roadmap?",
    "Rewrite my pitch to feel " + "more human and bold."
  ]

  /** What the user can do: send the form, click a quick prompt, or type. */
  datatype Event = Send | QuickPrompt(prompt: string) | Type(text: string)

  /** Submitting the form: blank input is ignored; otherwise the trimmed
      input and its reply are appended as one update and the input is
      cleared. */
  function Submitted(s: State): (r: State)
    ensures |s.history| <= |r.history| && r.history[..|s.history|] == s.history
    ensures r == s || r.input == ""
  {
    var trimmed := Trim(s.input);
    if trimmed == [] then s
    else State(s.history + [Message(User, trimmed), Message(Assistant, Reply(trimmed))], "")
  }

  /** The effect of one event. Clicking a quick prompt and typing both only
      overwrite the pending input. */
  function Step(s: State, e: Event): (r: State)
    ensures e.Send? || r.history == s.history
  {
    match e
    case Send => Submitted(s)
    case QuickPrompt(p) => State(s.history, p)
    case Type(t) => State(s.history, t)
  }

  /** The state after a sequence of events, the first one first. */
  function Run(s: State, events: seq<Event>): (r: State)
    ensures |s.history| <= |r.history|
    decreases |events|
  {
    if events == [] then s else Run(Step(s, events[0]), events[1..])
  }

  /** The last two turns of `h` are a user turn holding non-blank trimmed
      text and the assistant's reply to exactly that text. */
  predicate EndsWithExchange(h: seq<Message>)
    requires |h| >= 2
  {
    var question := h[|h| - 2];
    question.role == User && question.content != [] && Trim(question.content) == question.content &&
    h[|h| - 1] == Message(Assistant, Reply(question.content))
  }

  /** Every history the widget can show: the greeting, followed by complete
      exchanges of a user turn and the reply to it. */
  predicate WellFormed(h: seq<Message>)
    ensures WellFormed(h) ==> h != [] && h[0] == Greeting
    decreases |h|
  {
    if |h| <= 1 then h == [Greeting]
    else EndsWithExchange(h) && WellFormed(h[..|h| - 2])
  }

  /** Parity around an odd number: two steps either way stay odd, one step
      back is even. */
  lemma OddNeighbours(n: int)
    requires n % 2 == 1
    ensures (n + 2) % 2 == 1 && (n - 1) % 2 == 0 && (n - 2) % 2 == 1
  {
  }

  /** A well-formed history is never empty, starts with the greeting and has
      odd length. */
  lemma {:induction false} WellFormedShape(h: seq<Message>)
    requires WellFormed(h)
    ensures |h| % 2 == 1 && h[0] == Greeting
    decreases |h|
  {
    if |h| > 1 {
      var prefix := h[..|h| - 2];
      WellFormedShape(prefix);
      assert h[0] == prefix[0];
      OddNeighbours(|prefix|);
      assert |h| == |prefix| + 2;
    }
  }

  /** In a well-formed history the user's turns are exactly those at odd
      positions. */
  lemma {:induction false} UserTurnsAtOddPositions(h: seq<Message>, i: nat)
    requires WellFormed(h) && i < |h|
    ensures h[i].role == User <==> i % 2 == 1
    decreases |h|
  {
    if |h| == 1 {
      assert h[i] == Greeting;
    } else if i < |h| - 2 {
      var prefix := h[..|h| - 2];
      UserTurnsAtOddPositions(prefix, i);
      assert h[i] == prefix[i];
    } else {
      WellFormedShape(h);
      OddNeighbours(|h|);
      if i == |h| - 2 {
        assert h[i].role == User;
      } else {
        assert h[i].role == Assistant;
      }
    }
  }

  /** In a well-formed history every user turn holds non-blank trimmed text
      and is followed by the reply to that text. */
  lemma {:induction false} UserTurnsAnswered(h: seq<Message>, i: nat)
    requires WellFormed(h) && i < |h| && h[i].role == User
    ensures i + 1 < |h| && h[i + 1] == Message(Assistant, Reply(h[i].content))
    ensures h[i].content != [] && Trim(h[i].content) == h[i].content
    decreases |h|
  {
    if |h| > 1 && i < |h| - 2 {
      var prefix := h[..|h| - 2];
      assert h[i] == prefix[i];
      UserTurnsAnswered(prefix, i);
      assert h[i + 1] == prefix[i + 1];
    }
  }

  /** In a well-formed history every assistant turn but the greeting comes
      right after a user turn and is the reply to its text. */
  lemma {:induction false} RepliesFollowUserTurns(h: seq<Message>, i: nat)
    requires WellFormed(h) && 0 < i < |h| && h[i].role != User
    ensures h[i - 1].role == User && h[i].content == Reply(h[i - 1].content)
    decreases |h|
  {
    if i < |h| - 2 {
      var prefix := h[..|h| - 2];
      assert h[i] == prefix[i] && h[i - 1] == prefix[i - 1];
      RepliesFollowUserTurns(prefix, i);
    } else {
      assert i == |h| - 1;
    }
  }

  /** The assistant turns after the greeting are canned replies, which are
      not empty. */
  lemma {:induction false} ReplyTurnNonEmpty(h: seq<Message>, i: nat)
    requires WellFormed(h) && 0 < i < |h| && h[i].role != User
    ensures h[i].content != []
  {
    RepliesFollowUserTurns(h, i);
    ReplyIsCanned(h[i - 1].content);
  }

  /** No turn of a well-formed history is empty: the greeting is not, user
      turns hold non-blank text, and every reply is one of the canned texts. */
  lemma {:induction false} TurnsNonEmpty(h: seq<Message>, i: nat)
    requires WellFormed(h) && i < |h|
    ensures h[i].content != []
  {
    if i == 0 {
      WellFormedShape(h);
      GreetingNonEmpty();
    } else if h[i].role == User {
      UserTurnsAnswered(h, i);
    } else {
      ReplyTurnNonEmpty(h, i);
    }
  }

  /** The history when the page opens is well formed. */
  lemma InitialWellFormed()
    ensures WellFormed(Initial.history) && Initial.input == ""
  {
  }

  /** Submitting blank input (empty or only white space) changes nothing. */
  lemma SubmitBlankIsNoOp(s: State)
    requires IsBlank(s.input)
    ensures Submitted(s) == s
  {
    TrimEmptyIffBlank(s.input);
  }

  /** Submitting input with a non-space character appends exactly the user
      turn with the trimmed text and the reply to that text, keeps the old
      turns as a prefix, and clears the input. */
  lemma SubmitAppendsExchange(s: State)
    requires !IsBlank(s.input)
    ensures var t := Submitted(s);
      |t.history| == |s.history| + 2 && t.history[..|s.history|] == s.history &&
      t.history[|s.history|] == Message(User, Trim(s.input)) &&
      t.history[|s.history| + 1] == Message(Assistant, Reply(Trim(s.input))) &&
      t.input == ""
  {
    TrimEmptyIffBlank(s.input);
  }

  /** Every event keeps the history well formed. */
  lemma StepPreservesWellFormed(s: State, e: Event)
    requires WellFormed(s.history)
    ensures WellFormed(Step(s, e).history)
  {
    if e.Send? && Trim(s.input) != [] {
      var h' := Step(s, e).history;
      assert h'[..|h'| - 2] == s.history;
      TrimIdempotent(s.input);
    }
  }

  /** Events only ever append to the history. */
  lemma {:induction false} RunExtendsHistory(s: State, events: seq<Event>)
    decreases |events|
    ensures |s.history| <= |Run(s, events).history|
    ensures Run(s, events).history[..|s.history|] == s.history
  {
    if events != [] {
      var s' := Step(s, events[0]);
      assert s'.history[..|s.history|] == s.history;
      RunExtendsHistory(s', events[1..]);
    }
  }

  /** Whatever the user does, the history stays well formed: it is never
      empty, starts with the greeting, has odd length and holds only
      complete exchanges. */
  lemma {:induction false} RunPreservesWellFormed(s: State, events: seq<Event>)
    requires WellFormed(s.history)
    decreases |events|
    ensures WellFormed(Run(s, events).history)
  {
    if events != [] {
      StepPreservesWellFormed(s, events[0]);
      RunPreservesWellFormed(Step(s, events[0]), events[1..]);
    }
  }

  /** Every history reachable from the opening state is well formed. */
  lemma ReachableWellFormed(events: seq<Event>)
    ensures WellFormed(Run(Initial, events).history)
    ensures Run(Initial, events).history[0] == Greeting && |Run(Initial, events).history| % 2 == 1
  {
    RunPreservesWellFormed(Initial, events);
    WellFormedShape(Run(Initial, events).history);
  }

  /** Clicking a quick prompt whose text has nothing to trim and then
      sending asks exactly that prompt: its turn and its reply are appended
      and the input is cleared. */
  lemma QuickPromptThenSend(s: State, prompt: string)
    requires prompt != [] && Trim(prompt) == prompt
    ensures Run(s, [Event.QuickPrompt(prompt), Send]) ==
      State(s.history + [Message(User, prompt), Message(Assistant, Reply(prompt))], "")
  {
    var clicked := Step(s, Event.QuickPrompt(prompt));
    assert Run(s, [Event.QuickPrompt(prompt), Send]) == Run(clicked, [Send]);
  }

  /** Clicking any of the four prompt chips and then sending asks exactly
      that chip's text: none of them has anything to trim. */
  lemma ChipThenSend(s: State, i: nat)
    requires i < |QuickPrompts|
    ensures Run(s, [Event.QuickPrompt(QuickPrompts[i]), Send]) ==
      State(s.history + [Message(User, QuickPrompts[i]), Message(Assistant, Reply(QuickPrompts[i]))], "")
  {
    var p := QuickPrompts[i];
    assert p != [] && !IsSpace(p[0]) && !IsSpace(p[|p| - 1]) by {
      assert i == 0 || i == 1 || i == 2 || i == 3;
    }
    assert TrimStart(p) == p;
    QuickPromptThenSend(s, p);
  }

  /** The roadmap chip names both an idea and a roadmap and gets the
      planning reply. */
  lemma RoadmapChipGetsPlanReply()
    ensures Reply(QuickPrompts[2]) == PlanReply
  {
    IdeaIntoRoadmapGetsPlanReply(QuickPrompts[2]);
  }

  /** The first hero button's prompt has nothing to trim and names a launch,
      so it gets the planning reply. */
  lemma HeadlinePromptGetsPlanReply(q: string)
    requires q == "Give me a bold launch headline."
    ensures q != [] && Trim(q) == q && Reply(q) == PlanReply
  {
    assert !IsSpace(q[0]) && !IsSpace(q[|q| - 1]);
    assert TrimStart(q) == q;
    assert q == "Give me a bold " + "launch" + " headline.";
    ExactOccurrence(q, "launch", 15);
    assert Matchers[0][2] == "launch";
    ReplyOfFirstMatchingRule(q, 0);
  }

  /** The second hero button's prompt has nothing to trim and names a plan,
      so it gets the planning reply too. */
  lemma OutlinePromptGetsPlanReply(q: string)
    requires q == "Outline a 3-step " + "plan" + " to introduce my product."
    ensures q != [] && Trim(q) == q && Reply(q) == PlanReply
  {
    assert !IsSpace(q[0]) && !IsSpace(q[|q| - 1]);
    assert TrimStart(q) == q;
    ExactOccurrence(q, "plan", 17);
    assert Matchers[0][0] == "plan";
    ReplyOfFirstMatchingRule(q, 0);
  }

  /** The widget's two state cells, with the handlers that change them. */
  class ChatWidget {
    var history: seq<Message>
    var input: string

    /** The current state as a value. */
    function Snapshot(): State
      reads this
    {
      State(history, input)
    }

    /** The history starts as the greeting alone and the input as "". */
    constructor ()
      ensures history == [Greeting] && input == ""
      ensures WellFormed(history)
    {
      history := [Greeting];
      input := "";
    }

    /** `handleSubmit`: trim the input; ignore it when blank; otherwise
        append the user turn and its reply in one update and clear the input. */
    method Submit()
      modifies this
      ensures Snapshot() == Submitted(old(Snapshot()))
      ensures IsBlank(old(input)) ==> history == old(history) && input == old(input)
      ensures !IsBlank(old(input)) ==>
        history == old(history) + [Message(User, Trim(old(input))), Message(Assistant, Reply(Trim(old(input))))] &&
        input == ""
      ensures old(WellFormed(history)) ==> WellFormed(history)
    {
      TrimEmptyIffBlank(input);
      if WellFormed(history) {
        StepPreservesWellFormed(Snapshot(), Send);
      }
      var trimmed := Trim(input);
      if trimmed == [] {
        return;
      }
      history := history + [Message(User, trimmed), Message(Assistant, Reply(trimmed))];
      input := "";
    }

    /** `handleQuickPrompt`: the prompt text becomes the pending input,
        verbatim; the history is untouched. */
    method QuickPrompt(prompt: string)
      modifies this`input
      ensures input == prompt && history == old(history)
      ensures Snapshot() == Step(old(Snapshot()), Event.QuickPrompt(prompt))
    {
      input := prompt;
    }

    /** The text box's change handler: what was typed becomes the pending
        input; the history is untouched. */
    method Type(text: string)
      modifies this`input
      ensures input == text && history == old(history)
      ensures Snapshot() == Step(old(Snapshot()), Event.Type(text))
    {
      input := text;
    }
  }

  /** Clicking a hero button on the opening page and then sending: the
      history becomes the greeting, the button's prompt as the user's turn,
      and the planning reply, and the input is cleared. */
  lemma HeroButtonThenSend(prompt: string)
    requires prompt == HeadlinePrompt || prompt == OutlinePrompt
    ensures Run(Initial, [Event.QuickPrompt(prompt), Send]) ==
      State([Greeting, Message(User, prompt), Message(Assistant, PlanReply)], "")
  {
    if prompt == HeadlinePrompt {
      HeadlinePromptGetsPlanReply(prompt);
    } else {
      OutlinePromptGetsPlanReply(prompt);
    }
    QuickPromptThenSend(Initial, prompt);
    assert Initial.history + [Message(User, prompt), Message(Assistant, Reply(prompt))] ==
      [Greeting, Message(User, prompt), Message(Assistant, PlanReply)];
  }
}
