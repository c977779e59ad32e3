/**
 The reply cleaner that the chat page applies to every reply before it is
 shown and stored: six literal replacements, in a fixed order, followed by a
 strip of surrounding whitespace.
 */
module Sanitizer {
  import opened PyStr

  const IdealLabel: string := "Ideal assistant response:"
  const AiLabel: string := "AI response:"
  const ChatLabel: string := "chat response:"
  const BotLabel: string := "bot response:"
  const Fence: string := "```"
  const EchoedPrompt: string := "How should I respond as Travel Recommender System?"

  /** The six fragments the cleaner replaces, in the order it replaces them. */
  const Fragments: seq<string> := [IdealLabel, AiLabel, ChatLabel, BotLabel, Fence, EchoedPrompt]

  /** No fragment the cleaner looks for occurs in `s`. */
  predicate FragmentFree(s: string) {
    forall f :: f in Fragments ==> !Occurs(s, f)
  }

  /**
   The cleaned reply: the four boilerplate labels and the echoed prompt are
   deleted, every code fence becomes one space, and the result is stripped.
   Each replacement is a single left-to-right pass over the previous result.
   */
  function Clean(reply: string): (r: string)
    ensures Trimmed(r)
  {
    var noIdeal := ReplaceAll(reply, IdealLabel, "");
    var noAi := ReplaceAll(noIdeal, AiLabel, "");
    var noChat := ReplaceAll(noAi, ChatLabel, "");
    var noBot := ReplaceAll(noChat, BotLabel, "");
    var noFence := ReplaceAll(noBot, Fence, " ");
    var noEcho := ReplaceAll(noFence, EchoedPrompt, "");
    Strip(noEcho)
  }

  /** A trimmed reply that holds none of the six fragments comes out unchanged. */
  lemma CleanLeavesPlainReply(s: string)
    requires Trimmed(s) && FragmentFree(s)
    ensures Clean(s) == s
  {
    assert IdealLabel in Fragments && AiLabel in Fragments && ChatLabel in Fragments;
    assert BotLabel in Fragments && Fence in Fragments && EchoedPrompt in Fragments;
    ReplaceAbsent(s, IdealLabel, "");
    ReplaceAbsent(s, AiLabel, "");
    ReplaceAbsent(s, ChatLabel, "");
    ReplaceAbsent(s, BotLabel, "");
    ReplaceAbsent(s, Fence, " ");
    ReplaceAbsent(s, EchoedPrompt, "");
    StripTrimmed(s);
  }

  /** Clean, read as the chain of its six intermediate results. */
  lemma CleanChain(reply: string, noIdeal: string, noAi: string, noChat: string,
                   noBot: string, noFence: string, noEcho: string)
    requires ReplaceAll(reply, IdealLabel, "") == noIdeal
    requires ReplaceAll(noIdeal, AiLabel, "") == noAi
    requires ReplaceAll(noAi, ChatLabel, "") == noChat
    requires ReplaceAll(noChat, BotLabel, "") == noBot
    requires ReplaceAll(noBot, Fence, " ") == noFence
    requires ReplaceAll(noFence, EchoedPrompt, "") == noEcho
    ensures Clean(reply) == Strip(noEcho)
  {
  }

  /** Each code fence turns into one space before the strip: "```Hi```" cleans to "Hi". */
  lemma CleanFences()
    ensures Clean("```Hi```") == "Hi"
  {
    ReplaceShort("```Hi```", IdealLabel, "");
    FencedNoAi();
    FencedNoChat();
    FencedNoBot();
    FencesToSpaces();
    ReplaceShort(" Hi ", EchoedPrompt, "");
    CleanChain("```Hi```", "```Hi```", "```Hi```", "```Hi```", "```Hi```", " Hi ", " Hi ");
    StripHi();
  }

  lemma FencedNoAi()
    ensures ReplaceAll("```Hi```", AiLabel, "") == "```Hi```"
  {
    ReplaceShort("```Hi```", AiLabel, "");
  }

  lemma FencedNoChat()
    ensures ReplaceAll("```Hi```", ChatLabel, "") == "```Hi```"
  {
    ReplaceShort("```Hi```", ChatLabel, "");
  }

  lemma FencedNoBot()
    ensures ReplaceAll("```Hi```", BotLabel, "") == "```Hi```"
  {
    ReplaceShort("```Hi```", BotLabel, "");
  }

  lemma StripHi()
    ensures Strip(" Hi ") == "Hi"
  {
    assert " Hi "[1..3] == "Hi";
    StripUnique(" Hi ", 1, 3);
  }

  lemma FencesToSpaces()
    ensures ReplaceAll("```Hi```", Fence, " ") == " Hi "
  {
    assert "```Hi```" == Fence + ("Hi" + Fence);
    ReplaceHit(Fence, "Hi" + Fence, " ");
    ReplacePlain("Hi", Fence, Fence, " ");
    assert Fence == Fence + [];
    ReplaceHit(Fence, [], " ");
  }

  /** A reply in which deleting one label splices together another. */
  const SplicedReply: string := "AI resp" + AiLabel + "onse:"

  /**
   Clean is not idempotent: deleting a label can splice a new label together
   out of the text around it, and only a second clean removes that one.
   */
  lemma CleanNotIdempotent()
    ensures Clean(SplicedReply) == AiLabel
    ensures Clean(Clean(SplicedReply)) == ""
  {
    SplicedFirstPass();
    LabelOnly();
  }

  lemma SplicedFirstPass()
    ensures Clean(SplicedReply) == AiLabel
  {
    SplicedNoIdeal();
    SplicedLabel();
    LabelNoChat();
    LabelNoBot();
    LabelNoFence();
    LabelNoEcho();
    CleanChain(SplicedReply, SplicedReply, AiLabel, AiLabel, AiLabel, AiLabel, AiLabel);
    LabelStripped();
  }

  lemma SplicedNoIdeal()
    ensures ReplaceAll(SplicedReply, IdealLabel, "") == SplicedReply
  {
    ReplaceShort(SplicedReply, IdealLabel, "");
  }

  lemma LabelStripped()
    ensures Strip(AiLabel) == AiLabel
  {
    StripTrimmed(AiLabel);
  }

  lemma LabelNoChat()
    ensures ReplaceAll(AiLabel, ChatLabel, "") == AiLabel
  {
    ReplaceShort(AiLabel, ChatLabel, "");
  }

  lemma LabelNoBot()
    ensures ReplaceAll(AiLabel, BotLabel, "") == AiLabel
  {
    ReplaceShort(AiLabel, BotLabel, "");
  }

  lemma LabelNoFence()
    ensures ReplaceAll(AiLabel, Fence, " ") == AiLabel
  {
    ReplaceWithoutLead(AiLabel, Fence, " ");
  }

  lemma LabelNoEcho()
    ensures ReplaceAll(AiLabel, EchoedPrompt, "") == AiLabel
  {
    ReplaceShort(AiLabel, EchoedPrompt, "");
  }

  /** The label in the middle is deleted and the text around it closes up into a new one. */
  lemma SplicedLabel()
    ensures ReplaceAll(SplicedReply, AiLabel, "") == AiLabel
  {
    SplicedShape();
    SplicedStartsElsewhere();
    ReplaceAfterMiss('A', "I resp", AiLabel + "onse:", AiLabel, "");
    SplicedRest();
    SplicedClosesUp();
  }

  lemma SplicedRest()
    ensures ReplaceAll(AiLabel + "onse:", AiLabel, "") == "onse:"
  {
    ReplaceHit(AiLabel, "onse:", "");
    ReplaceShort("onse:", AiLabel, "");
  }

  lemma SplicedClosesUp()
    ensures ['A'] + "I resp" + "onse:" == AiLabel
  {
  }

  lemma SplicedShape()
    ensures SplicedReply == ['A'] + ("I resp" + (AiLabel + "onse:"))
  {
    assert "AI resp" == ['A'] + "I resp";
  }

  lemma SplicedStartsElsewhere()
    ensures !StartsWith(SplicedReply, AiLabel)
  {
    assert SplicedReply[7] == 'A' && AiLabel[7] == 'o';
    assert SplicedReply[..12][7] == SplicedReply[7];
  }

  /** The one label left over after the first pass is deleted by the second. */
  lemma LabelOnly()
    ensures Clean(AiLabel) == ""
  {
    LabelNoIdeal();
    LabelDeleted();
    EmptyStaysEmpty();
    CleanChain(AiLabel, AiLabel, [], [], [], [], []);
    EmptyStripped();
  }

  lemma LabelNoIdeal()
    ensures ReplaceAll(AiLabel, IdealLabel, "") == AiLabel
  {
    ReplaceShort(AiLabel, IdealLabel, "");
  }

  lemma EmptyStripped()
    ensures Strip([]) == []
  {
    StripTrimmed([]);
  }

  lemma LabelDeleted()
    ensures ReplaceAll(AiLabel, AiLabel, "") == []
  {
    assert AiLabel == AiLabel + [];
    ReplaceHit(AiLabel, [], "");
  }

  lemma EmptyStaysEmpty()
    ensures ReplaceAll([], ChatLabel, "") == [] && ReplaceAll([], BotLabel, "") == []
    ensures ReplaceAll([], Fence, " ") == [] && ReplaceAll([], EchoedPrompt, "") == []
  {
  }

  /** The reply the chat page builds when the model call fails with a timeout. */
  const TimeoutReply: string := "An error occurred: timeout"

  /** The error reply for a timeout is shown and stored exactly as built. */
  lemma CleanTimeoutError()
    ensures Clean(TimeoutReply) == TimeoutReply
  {
    TimeoutNoIdeal();
    TimeoutNoAi();
    TimeoutNoChat();
    TimeoutNoBot();
    TimeoutNoFence();
    TimeoutNoEcho();
    CleanChain(TimeoutReply, TimeoutReply, TimeoutReply, TimeoutReply, TimeoutReply, TimeoutReply,
               TimeoutReply);
    TimeoutStripped();
  }

  lemma TimeoutNoIdeal()
    ensures ReplaceAll(TimeoutReply, IdealLabel, "") == TimeoutReply
  {
    ReplaceWithoutLead(TimeoutReply, IdealLabel, "");
  }

  lemma TimeoutStripped()
    ensures Strip(TimeoutReply) == TimeoutReply
  {
    StripTrimmed(TimeoutReply);
  }

  lemma TimeoutNoAi()
    ensures ReplaceAll(TimeoutReply, AiLabel, "") == TimeoutReply
  {
    TimeoutShape();
    TimeoutStartsElsewhere();
    ReplaceSkipFirst('A', "n error occurred: timeout", AiLabel, "");
  }

  lemma TimeoutShape()
    ensures TimeoutReply == ['A'] + "n error occurred: timeout"
  {
  }

  lemma TimeoutStartsElsewhere()
    ensures !StartsWith(TimeoutReply, AiLabel)
  {
    assert TimeoutReply[1] == 'n' && AiLabel[1] == 'I';
    assert TimeoutReply[..12][1] == TimeoutReply[1];
  }

  lemma TimeoutNoChat()
    ensures ReplaceAll(TimeoutReply, ChatLabel, "") == TimeoutReply
  {
    assert TimeoutReply == "An error o" + "ccurred: timeout";
    ReplacePlain("An error o", "ccurred: timeout", ChatLabel, "");
    OccurredNoChat();
  }

  lemma OccurredNoChat()
    ensures ReplaceAll("ccurred: timeout", ChatLabel, "") == "ccurred: timeout"
  {
    var u := "ccurred: timeout";
    assert u == ['c'] + "curred: timeout";
    assert u[..14] == "ccurred: timeo";
    ReplaceStep(u, ChatLabel, "");
    CurredNoChat();
  }

  lemma CurredNoChat()
    ensures ReplaceAll("curred: timeout", ChatLabel, "") == "curred: timeout"
  {
    assert "curred: timeout" == ['c'] + "urred: timeout";
    assert "curred: timeout"[..14] == "curred: timeou";
    ReplaceSkipFirst('c', "urred: timeout", ChatLabel, "");
  }

  lemma TimeoutNoBot()
    ensures ReplaceAll(TimeoutReply, BotLabel, "") == TimeoutReply
  {
    ReplaceWithoutLead(TimeoutReply, BotLabel, "");
  }

  lemma TimeoutNoFence()
    ensures ReplaceAll(TimeoutReply, Fence, " ") == TimeoutReply
  {
    ReplaceWithoutLead(TimeoutReply, Fence, " ");
  }

  lemma TimeoutNoEcho()
    ensures ReplaceAll(TimeoutReply, EchoedPrompt, "") == TimeoutReply
  {
    ReplaceShort(TimeoutReply, EchoedPrompt, "");
  }

  /** The text before the label in `LouvreReply`, with its trailing blank. */
  const LouvreLead: string := "Sure! "

  /** The text after the label in `LouvreReply`, with its leading blank. */
  const LouvreRest: string := " Visit the Louvre."

  /** A fenced reply with a label in the middle of a sentence: "```Sure! AI response: Visit the Louvre.```". */
  const LouvreReply: string := Fence + (LouvreLead + (AiLabel + (LouvreRest + Fence)))

  /** `LouvreReply` with its label deleted. */
  const LouvreUnlabelled: string := Fence + (LouvreLead + (LouvreRest + Fence))

  /** `LouvreUnlabelled` with its fences turned into spaces. */
  const LouvreUnfenced: string := " " + (LouvreLead + (LouvreRest + " "))

  /**
   Deleting a label keeps the blanks on both sides of it: the label between
   "Sure! " and " Visit" leaves two spaces behind, which the strip does not touch.
   */
  lemma CleanKeepsSpacesAroundLabel()
    ensures Clean(LouvreReply) == "Sure!  Visit the Louvre."
  {
    LouvreNoIdeal();
    LouvreLabelDeleted();
    UnlabelledNoChat();
    UnlabelledNoBot();
    UnlabelledFences();
    UnfencedNoEcho();
    CleanChain(LouvreReply, LouvreReply, LouvreUnlabelled, LouvreUnlabelled, LouvreUnlabelled,
               LouvreUnfenced, LouvreUnfenced);
    UnfencedStripped();
    LouvreSpelled();
  }

  lemma LouvreSpelled()
    ensures LouvreLead + LouvreRest == "Sure!  Visit the Louvre."
  {
  }

  lemma LouvreNoIdeal()
    ensures ReplaceAll(LouvreReply, IdealLabel, "") == LouvreReply
  {
    var tail := AiLabel + (LouvreRest + Fence);
    Reassociate(Fence, LouvreLead, tail);
    ReplacePlain(Fence + LouvreLead, tail, IdealLabel, "");
    LabelNoIdealBefore(LouvreRest + Fence);
  }

  /** The capital `I` inside the short label does not start the long label. */
  lemma LabelNoIdealBefore(t: string)
    requires 'I' !in t
    ensures ReplaceAll(AiLabel + t, IdealLabel, "") == AiLabel + t
  {
    var r := " response:" + t;
    LabelSplit(t);
    ReplacePlain(['A'], ['I'] + r, IdealLabel, "");
    IdealMissAtI(r);
    ReplaceSkipFirst('I', r, IdealLabel, "");
  }

  lemma LabelSplit(t: string)
    ensures AiLabel + t == ['A'] + (['I'] + (" response:" + t))
  {
    assert AiLabel == ['A'] + (['I'] + " response:");
  }

  lemma IdealMissAtI(r: string)
    requires r != [] && r[0] == ' '
    ensures !StartsWith(['I'] + r, IdealLabel)
  {
    var s := ['I'] + r;
    assert s[1] == ' ' && IdealLabel[1] == 'd';
    if |IdealLabel| <= |s| {
      assert s[..|IdealLabel|][1] == s[1];
    }
  }

  lemma Reassociate(a: string, b: string, c: string)
    ensures a + (b + c) == (a + b) + c
  {
  }

  lemma LouvreLabelDeleted()
    ensures ReplaceAll(LouvreReply, AiLabel, "") == LouvreUnlabelled
  {
    var after := LouvreRest + Fence;
    Reassociate(Fence, LouvreLead, AiLabel + after);
    ReplacePlain(Fence + LouvreLead, AiLabel + after, AiLabel, "");
    LabelThenRest();
    Reassociate(Fence, LouvreLead, after);
  }

  lemma LabelThenRest()
    ensures ReplaceAll(AiLabel + (LouvreRest + Fence), AiLabel, "") == LouvreRest + Fence
  {
    ReplaceHit(AiLabel, LouvreRest + Fence, "");
    RestNoLabel();
  }

  lemma RestNoLabel()
    ensures ReplaceAll(LouvreRest + Fence, AiLabel, "") == LouvreRest + Fence
  {
    ReplaceWithoutLead(LouvreRest + Fence, AiLabel, "");
  }

  lemma UnlabelledNoChat()
    ensures ReplaceAll(LouvreUnlabelled, ChatLabel, "") == LouvreUnlabelled
  {
    ReplaceWithoutLead(LouvreUnlabelled, ChatLabel, "");
  }

  lemma UnlabelledNoBot()
    ensures ReplaceAll(LouvreUnlabelled, BotLabel, "") == LouvreUnlabelled
  {
    ReplaceWithoutLead(LouvreUnlabelled, BotLabel, "");
  }

  lemma UnlabelledFences()
    ensures ReplaceAll(LouvreUnlabelled, Fence, " ") == LouvreUnfenced
  {
    ReplaceHit(Fence, LouvreLead + (LouvreRest + Fence), " ");
    ReplacePlain(LouvreLead, LouvreRest + Fence, Fence, " ");
    ReplacePlain(LouvreRest, Fence, Fence, " ");
    assert Fence == Fence + [];
    ReplaceHit(Fence, [], " ");
  }

  lemma UnfencedNoEcho()
    ensures ReplaceAll(LouvreUnfenced, EchoedPrompt, "") == LouvreUnfenced
  {
    ReplaceShort(LouvreUnfenced, EchoedPrompt, "");
  }

  lemma UnfencedStripped()
    ensures Strip(LouvreUnfenced) == LouvreLead + LouvreRest
  {
    var n := |LouvreUnfenced|;
    assert LouvreUnfenced[1..n - 1] == LouvreLead + LouvreRest;
    assert LouvreUnfenced[0] == ' ' && LouvreUnfenced[n - 1] == ' ';
    StripUnique(LouvreUnfenced, 1, n - 1);
  }
}
