/** The reply selector of the chat widget: a fixed, ordered table of
    (matcher, response) rules, searched first match wins, with a fixed
    default when no rule matches. */
module Replies {
  import opened Text

  datatype Option<T> = None | Some(value: T)

  /** The matcher column of the response table, in precedence order. Each
      matcher is a case-insensitive regex made only of literal alternatives
      (`/plan|roadmap|launch/i`) and is kept as the list of those
      alternatives. */
  const Matchers: seq<seq<string>> := [
    ["plan", "roadmap", "launch"],
    ["icebreaker", "remote", "team"],
    ["pitch", "rewrite", "copy"],
    ["idea", "creative", "spark"]
  ]

  const PlanReply: string :=
    "Start by framing the intention, then " +
    "stack milestones that unlock the next " +
    "question. Anchor each milestone to an " +
    "outcome you can celebrate."
  const IcebreakerReply: string :=
    "Try a 60-second gallery: everyone drops " +
    "a single photo or emoji that matches " +
    "their energy. It warms the room and " +
    "sparks stories instantly."
  const PitchReply: string :=
    "Lead with the tension you dissolve, " +
    "then offer a crisp promise. Keep verbs " +
    "active, sentences short, and finish " +
    "with an invitation instead of a plea."
  const IdeaReply: string :=
    "Collect fragments that already excite " +
    "you, group them by the feeling they " +
    "create, and explore the overlap. " +
    "Momentum lives where curiosity repeats."

  /** The response column of the table: `Responses[j]` answers `Matchers[j]`. */
  const Responses: seq<string> := [PlanReply, IcebreakerReply, PitchReply, IdeaReply]

  /** The response when no rule matches. */
  const DefaultReply: string :=
    "I remix patterns, surface momentum, and " +
    "keep the vibe intentional. Lean into " +
    "the question—I'll meet you with a nudge " +
    "forward."

  /** A matcher's regex tests true on `input`: one of its alternatives
      occurs in the input, letters compared without regard to case. */
  predicate Matches(matcher: seq<string>, input: string)
    ensures Matches(matcher, input) ==> exists n :: 0 <= n < |matcher| && |matcher[n]| <= |input|
  {
    exists n :: 0 <= n < |matcher| && ContainsIgnoringCase(input, matcher[n])
  }

  /** The position of the first matcher that accepts `input`, as
      `Array.prototype.find` scans the table; None when none does. */
  function FirstMatch(matchers: seq<seq<string>>, input: string): (r: Option<nat>)
    ensures r.Some? ==> r.value < |matchers| && Matches(matchers[r.value], input)
    ensures matchers != [] && Matches(matchers[0], input) ==> r == Some(0)
  {
    if matchers == [] then None
    else if Matches(matchers[0], input) then Some(0)
    else
      match FirstMatch(matchers[1..], input)
      case None => None
      case Some(i) => Some(i + 1)
  }

  /** `find` gives the lowest position whose matcher accepts the input, and
      nothing exactly when no matcher does. */
  lemma {:induction false} FirstMatchSpec(matchers: seq<seq<string>>, input: string)
    ensures var r := FirstMatch(matchers, input);
      (r.Some? ==> r.value < |matchers| && Matches(matchers[r.value], input)) &&
      (r.Some? ==> forall j :: 0 <= j < r.value ==> !Matches(matchers[j], input)) &&
      (r.None? <==> forall j :: 0 <= j < |matchers| ==> !Matches(matchers[j], input))
  {
    if matchers != [] && !Matches(matchers[0], input) {
      FirstMatchSpec(matchers[1..], input);
      assert forall j :: 1 <= j < |matchers| ==> matchers[1..][j - 1] == matchers[j];
    }
  }

  /** `generateAssistantReply`: the response of the first matching rule of
      the table, or the default. */
  function Reply(input: string): (r: string)
    ensures r in AllReplies
  {
    match FirstMatch(Matchers, input)
    case Some(i) => Responses[i]
    case None => DefaultReply
  }

  /** The five possible replies. */
  const AllReplies: set<string> := {PlanReply, IcebreakerReply, PitchReply, IdeaReply, DefaultReply}

  /** The five replies are pairwise different, so a reply tells which rule won. */
  lemma RepliesDistinct()
    ensures |Responses| == |Matchers|
    ensures forall i, j :: 0 <= i < j < |Responses| ==> Responses[i] != Responses[j]
    ensures forall i :: 0 <= i < |Responses| ==> Responses[i] != DefaultReply
  {
    assert PlanReply[0] == 'S' && IcebreakerReply[0] == 'T' && PitchReply[0] == 'L';
    assert IdeaReply[0] == 'C' && DefaultReply[0] == 'I';
  }

  /** The reply is always one of the five fixed strings, hence never empty. */
  lemma ReplyIsCanned(input: string)
    ensures Reply(input) in AllReplies
    ensures Reply(input) != ""
  {
  }

  /** First match wins: when rule `i` matches and no earlier rule does, the
      reply is rule `i`'s response. */
  lemma ReplyOfFirstMatchingRule(input: string, i: nat)
    requires i < |Matchers| && Matches(Matchers[i], input)
    requires forall j :: 0 <= j < i ==> !Matches(Matchers[j], input)
    ensures Reply(input) == Responses[i]
  {
    FirstMatchSpec(Matchers, input);
    var r := FirstMatch(Matchers, input);
    assert r.Some?;
    if r.value < i {
      assert false;
    } else if r.value > i {
      assert false;
    }
  }

  /** A later rule never wins over an earlier one that also matches. */
  lemma EarlierRuleWins(input: string, i: nat, j: nat)
    requires i < j < |Matchers|
    requires Matches(Matchers[i], input) && Matches(Matchers[j], input)
    ensures Reply(input) != Responses[j]
  {
    FirstMatchSpec(Matchers, input);
    var r := FirstMatch(Matchers, input);
    RepliesDistinct();
    assert r.Some? && r.value <= i;
  }

  /** The default comes back exactly when no rule matches. */
  lemma ReplyDefaultIffNoMatch(input: string)
    ensures Reply(input) == DefaultReply <==> forall j :: 0 <= j < |Matchers| ==> !Matches(Matchers[j], input)
  {
    FirstMatchSpec(Matchers, input);
    RepliesDistinct();
  }

  /** Matching ignores case: the first matcher to accept an input is the
      first to accept any case variant of it. */
  lemma {:induction false} FirstMatchIgnoresCase(matchers: seq<seq<string>>, a: string, b: string)
    requires SameIgnoringCase(a, b)
    ensures FirstMatch(matchers, a) == FirstMatch(matchers, b)
  {
    if matchers != [] {
      forall n | 0 <= n < |matchers[0]|
        ensures ContainsIgnoringCase(a, matchers[0][n]) == ContainsIgnoringCase(b, matchers[0][n])
      {
        ContainsIgnoresCase(a, b, matchers[0][n]);
      }
      FirstMatchIgnoresCase(matchers[1..], a, b);
    }
  }

  /** Inputs that differ only in the case of their letters get the same reply. */
  lemma ReplyIgnoresCase(a: string, b: string)
    requires SameIgnoringCase(a, b)
    ensures Reply(a) == Reply(b)
  {
    FirstMatchIgnoresCase(Matchers, a, b);
  }

  /** Upper-casing or lower-casing the input does not change the reply. */
  lemma ReplyIgnoresCaseChange(s: string)
    ensures Reply(Upper(s)) == Reply(s) == Reply(Lower(s))
  {
    CaseChangesAreSameIgnoringCase(s);
    ReplyIgnoresCase(s, Upper(s));
    ReplyIgnoresCase(s, Lower(s));
  }

  /** The roadmap question holds a keyword of the planning rule and one of
      the idea rule. */
  lemma RoadmapQuestionMatchesTwoRules(q: string)
    requires q == "How can I turn a vague idea into a roadmap?"
    ensures Matches(Matchers[0], q) && Matches(Matchers[3], q)
  {
    assert q == "How can I turn a vague " + "idea" + " into a " + "roadmap" + "?";
    ExactOccurrence(q, "roadmap", 35);
    ExactOccurrence(q, "idea", 23);
    assert Matchers[0][1] == "roadmap" && Matchers[3][0] == "idea";
  }

  /** A question that names both an idea and a roadmap matches the planning
      rule and the idea rule; the planning rule is earlier, so it answers. */
  lemma IdeaIntoRoadmapGetsPlanReply(q: string)
    requires q == "How can I turn a vague idea into a roadmap?"
    ensures Reply(q) == PlanReply && Reply(q) != IdeaReply
  {
    RoadmapQuestionMatchesTwoRules(q);
    ReplyOfFirstMatchingRule(q, 0);
    RepliesDistinct();
  }

  /** "LAUNCH plan" and "launch plan" both get the planning reply. */
  lemma LaunchPlanInAnyCase(upper: string, lower: string)
    requires upper == "LAUNCH plan" && lower == "launch plan"
    ensures Reply(upper) == Reply(lower) == PlanReply
  {
    ReplyIgnoresCase(upper, lower);
    ExactOccurrence(lower, "launch", 0);
    assert Matchers[0][2] == "launch";
    ReplyOfFirstMatchingRule(lower, 0);
  }

  /** "tell me a joke" has no `p`, `r`, `u`, `i`, `c` or `s`, in either case. */
  lemma JokeLetters(q: string)
    requires q == "tell me a joke"
    ensures forall i :: 0 <= i < |q| ==> LowerChar(q[i]) !in {'p', 'r', 'u', 'i', 'c', 's'}
  {
    forall i | 0 <= i < |q| ensures LowerChar(q[i]) !in {'p', 'r', 'u', 'i', 'c', 's'} {
      assert i == 0 || i == 1 || i == 2 || i == 3 || i == 4 || i == 5 || i == 6 ||
             i == 7 || i == 8 || i == 9 || i == 10 || i == 11 || i == 12 || i == 13;
    }
  }

  /** Every keyword but "team" has a letter that "tell me a joke" lacks. */
  lemma JokeLacksKeywords(q: string)
    requires q == "tell me a joke"
    ensures !ContainsIgnoringCase(q, "plan") && !ContainsIgnoringCase(q, "roadmap")
    ensures !ContainsIgnoringCase(q, "launch") && !ContainsIgnoringCase(q, "icebreaker")
    ensures !ContainsIgnoringCase(q, "remote") && !ContainsIgnoringCase(q, "pitch")
    ensures !ContainsIgnoringCase(q, "rewrite") && !ContainsIgnoringCase(q, "copy")
    ensures !ContainsIgnoringCase(q, "idea") && !ContainsIgnoringCase(q, "creative")
    ensures !ContainsIgnoringCase(q, "spark")
  {
    JokeLetters(q);
    MissingCharNotContained(q, "plan", 0);
    MissingCharNotContained(q, "roadmap", 0);
    MissingCharNotContained(q, "launch", 2);
    MissingCharNotContained(q, "icebreaker", 0);
    MissingCharNotContained(q, "remote", 0);
    MissingCharNotContained(q, "pitch", 0);
    MissingCharNotContained(q, "rewrite", 0);
    MissingCharNotContained(q, "copy", 0);
    MissingCharNotContained(q, "idea", 0);
    MissingCharNotContained(q, "creative", 0);
    MissingCharNotContained(q, "spark", 0);
  }

  /** "team" does not occur in "tell me a joke", though each of its letters does. */
  lemma JokeLacksTeam(q: string)
    requires q == "tell me a joke"
    ensures !ContainsIgnoringCase(q, "team")
  {
    forall i ensures !OccursAt(q, "team", i) {
      if 0 <= i <= |q| - 4 {
        assert i == 0 || i == 1 || i == 2 || i == 3 || i == 4 || i == 5 ||
               i == 6 || i == 7 || i == 8 || i == 9 || i == 10;
        assert LowerChar(q[i + 0]) != LowerChar("team"[0]) || LowerChar(q[i + 2]) != LowerChar("team"[2]);
      }
    }
    ContainsIffOccurs(q, "team");
  }

  /** Input in which no keyword of the table occurs, in any case, gets the
      default reply. */
  lemma NoKeywordGetsDefaultReply(q: string)
    requires !ContainsIgnoringCase(q, "plan") && !ContainsIgnoringCase(q, "roadmap")
    requires !ContainsIgnoringCase(q, "launch") && !ContainsIgnoringCase(q, "icebreaker")
    requires !ContainsIgnoringCase(q, "remote") && !ContainsIgnoringCase(q, "team")
    requires !ContainsIgnoringCase(q, "pitch") && !ContainsIgnoringCase(q, "rewrite")
    requires !ContainsIgnoringCase(q, "copy") && !ContainsIgnoringCase(q, "idea")
    requires !ContainsIgnoringCase(q, "creative") && !ContainsIgnoringCase(q, "spark")
    ensures Reply(q) == DefaultReply
  {
    assert forall j :: 0 <= j < |Matchers| ==> !Matches(Matchers[j], q);
    ReplyDefaultIffNoMatch(q);
  }

  /** "tell me a joke" names none of the keywords and gets the default reply. */
  lemma JokeGetsDefaultReply(q: string)
    requires q == "tell me a joke"
    ensures Reply(q) == DefaultReply
  {
    JokeLacksKeywords(q);
    JokeLacksTeam(q);
    NoKeywordGetsDefaultReply(q);
  }
}
