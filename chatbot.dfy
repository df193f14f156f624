/** `WebsiteChatbot.ask` (src/chatbot.py): the clean-up of the model's answer
    and the policy that replaces uncertain or empty answers with a fixed refusal.
    The retrieval chain itself (retriever, prompt, LLM, memory) is external; its
    outcome is the input `ChainReply`. */
module Chatbot {
  import opened Text

  /** The words of the refusal, each with the space that follows it. */
  const RefusalWords := ["The answer ", "is not ", "available ", "on the ", "provided ", "website."]

  /** "The answer is not available on the provided website.", assembled word by
      word so that facts about its characters can be read off each word. */
  const Refusal := RefusalWords[0] + RefusalWords[1] + RefusalWords[2] + RefusalWords[3] +
                   RefusalWords[4] + RefusalWords[5]

  /** The end-of-turn token some models leave in their output. */
  const EndOfTurn := "<|eot_id|>"

  /** Phrases that mark the model as unsure; matched against the lowercased answer. */
  const UncertaintyMarkers := ["i don't know", "i'm not sure", "cannot find", "not mentioned"]

  /** What `self.chain.invoke` gives: the answer, or the message of the exception it raised. */
  datatype ChainReply = Answer(text: string) | ChainRaised(message: string)

  /** `answer.strip()`, then `.replace("<|eot_id|>", "")`, then `.strip()`. */
  function CleanAnswer(raw: string): (r: string)
    ensures IsStripped(r) && |r| <= |raw|
  {
    Strip(RemoveAll(Strip(raw), EndOfTurn))
  }

  /** Some marker occurs in the lowercased answer. */
  predicate ExpressesUncertainty(answer: string)
    ensures ExpressesUncertainty(answer) ==> |answer| >= 11
  {
    exists k :: 0 <= k < |UncertaintyMarkers| && Contains(Lower(answer), UncertaintyMarkers[k])
  }

  /** The markers are written in lower case, so lowering leaves them alone. */
  lemma MarkersAreLower(k: nat)
    requires k < |UncertaintyMarkers|
    ensures Lower(UncertaintyMarkers[k]) == UncertaintyMarkers[k]
  {
  }

  /** Lowering distributes over concatenation. */
  lemma LowerAppend(x: string, y: string)
    ensures Lower(x + y) == Lower(x) + Lower(y)
  {
  }

  /** A marker written anywhere in the answer, in lower case, makes it uncertain. */
  lemma MarkerAnywhere(before: string, k: nat, after: string)
    requires k < |UncertaintyMarkers|
    ensures ExpressesUncertainty(before + UncertaintyMarkers[k] + after)
  {
    var m := UncertaintyMarkers[k];
    LowerAppend(before + m, after);
    LowerAppend(before, m);
    MarkersAreLower(k);
    ContainsMiddle(Lower(before), m, Lower(after));
  }

  /** The test ignores case: an answer and its lowercased form agree on it. */
  lemma UncertaintyIgnoresCase(answer: string)
    ensures ExpressesUncertainty(Lower(answer)) <==> ExpressesUncertainty(answer)
  {
    assert Lower(Lower(answer)) == Lower(answer);
  }

  /** Python lowers the KELVIN SIGN to `k`, so "I DON'T \u212aNOW" is uncertain
      and `ask` refuses it. */
  lemma KelvinSignLowered()
    ensures ExpressesUncertainty("I DON'T " + [KelvinSign] + "NOW")
    ensures Ask(Answer("I DON'T " + [KelvinSign] + "NOW")) == Refusal
  {
    var s := "I DON'T " + [KelvinSign] + "NOW";
    assert Lower(s) == UncertaintyMarkers[0];
    assert Contains(Lower(s), UncertaintyMarkers[0]) by {
      ContainsMiddle("", UncertaintyMarkers[0], "");
      assert "" + UncertaintyMarkers[0] + "" == UncertaintyMarkers[0];
    }
    assert s[0] == 'I' && s[|s| - 1] == 'W';
    StripByTrimmed(s, IsSpace);
    assert '<' !in s;
    LacksToken(s);
    RemoveAbsent(s, EndOfTurn);
    assert CleanAnswer(s) == s;
  }

  /** `ask(question)`, given what the chain returned for the question. */
  function Ask(reply: ChainReply): (r: string)
    ensures r != ""
    ensures reply.ChainRaised? ==> r == "Error: " + reply.message
    ensures reply.Answer? ==>
              (ExpressesUncertainty(CleanAnswer(reply.text)) || CleanAnswer(reply.text) == "" ==> r == Refusal)
    ensures reply.Answer? ==>
              (!ExpressesUncertainty(CleanAnswer(reply.text)) && CleanAnswer(reply.text) != "" ==>
                 r == CleanAnswer(reply.text))
    ensures reply.Answer? && r != Refusal ==>
              r == CleanAnswer(reply.text) && IsStripped(r) && !ExpressesUncertainty(r)
  {
    match reply
    case ChainRaised(message) => "Error: " + message
    case Answer(text) =>
      var answer := CleanAnswer(text);
      if ExpressesUncertainty(answer) then Refusal
      else if answer != "" then answer
      else Refusal
  }

  /** An answer the model gives that is already clean, certain and non-empty
      is passed through unchanged. */
  lemma CleanAnswerPassesThrough(text: string)
    requires text != "" && IsStripped(text) && !Contains(text, EndOfTurn) && !ExpressesUncertainty(text)
    ensures Ask(Answer(text)) == text
  {
    StripByTrimmed(text, IsSpace);
    RemoveAbsent(text, EndOfTurn);
  }

  /** The refusal itself is certain, clean and free of the end-of-turn token. */
  lemma RefusalIsClean()
    ensures Refusal != "" && IsStripped(Refusal) && !Contains(Refusal, EndOfTurn)
    ensures !ExpressesUncertainty(Refusal)
  {
    RefusalEnds();
    RefusalLacksToken();
    RefusalIsCertain();
  }

  lemma RefusalEnds()
    ensures Refusal != "" && IsStripped(Refusal)
  {
    assert Refusal[0] == 'T' && Refusal[|Refusal| - 1] == '.';
  }

  lemma RefusalLacksToken()
    ensures !Contains(Refusal, EndOfTurn)
  {
    RefusalLacks('<');
    LacksToken(Refusal);
  }

  /** An answer without `<` cannot hold the end-of-turn token. */
  lemma LacksToken(s: string)
    requires '<' !in s
    ensures !Contains(s, EndOfTurn)
  {
    assert EndOfTurn[0] == '<';
    MissingCharNotContained(s, EndOfTurn, '<');
  }

  lemma RefusalIsCertain()
    ensures !ExpressesUncertainty(Refusal)
  {
    RefusalLacks('\'');
    RefusalLacks('f');
    RefusalLacks('F');
    RefusalLacks('m');
    RefusalLacks('M');
    CertainWithout(Refusal);
  }

  /** No marker can occur in an answer lacking an apostrophe, an `f` and an `m`
      in either case: each marker holds one of these. */
  lemma CertainWithout(s: string)
    requires '\'' !in s && 'f' !in s && 'F' !in s && 'm' !in s && 'M' !in s
    ensures !ExpressesUncertainty(s)
  {
    var lower := Lower(s);
    LowerMissing(s, '\'');
    LowerMissing(s, 'f');
    LowerMissing(s, 'm');
    assert UncertaintyMarkers[0][5] == '\'' && UncertaintyMarkers[1][1] == '\'';
    assert UncertaintyMarkers[2][7] == 'f' && UncertaintyMarkers[3][4] == 'm';
    MissingCharNotContained(lower, UncertaintyMarkers[0], '\'');
    MissingCharNotContained(lower, UncertaintyMarkers[1], '\'');
    MissingCharNotContained(lower, UncertaintyMarkers[2], 'f');
    MissingCharNotContained(lower, UncertaintyMarkers[3], 'm');
  }

  /** The refusal holds none of the characters the other lemmas rely on. */
  lemma RefusalLacks(c: char)
    requires c in "'<fFmM"
    ensures c !in Refusal
  {
    forall k | 0 <= k < |RefusalWords| ensures c !in RefusalWords[k] {
      WordLacks(c, RefusalWords[k]);
    }
  }

  lemma WordLacks(c: char, w: string)
    requires c in "'<fFmM" && w in RefusalWords
    ensures c !in w
  {
  }

  /** Asking again with the answer `ask` returned gives the same answer, unless
      an end-of-turn token survived the single removal pass. */
  lemma AskIsStable(text: string)
    requires !Contains(Ask(Answer(text)), EndOfTurn)
    ensures Ask(Answer(Ask(Answer(text)))) == Ask(Answer(text))
  {
    RefusalIsClean();
    var r := Ask(Answer(text));
    if r == Refusal {
      CleanAnswerPassesThrough(Refusal);
    } else {
      CleanAnswerPassesThrough(r);
    }
  }

  /** `replace` removes tokens in one left-to-right pass, so a token written
      around another one is left in the cleaned answer. */
  lemma NestedTokenSurvives(answer: string)
    requires answer == "<|eot" + EndOfTurn + "_id|>"
    ensures CleanAnswer(answer) == EndOfTurn
  {
    assert Strip(answer) == answer by {
      assert answer[0] == '<' && answer[|answer| - 1] == '>';
      StripByTrimmed(answer, IsSpace);
    }
    RemoveNested(answer);
    assert Strip(EndOfTurn) == EndOfTurn by {
      assert EndOfTurn[0] == '<' && EndOfTurn[|EndOfTurn| - 1] == '>';
      StripByTrimmed(EndOfTurn, IsSpace);
    }
  }

  /** The single pass over the nested token: five characters kept, the inner
      token removed, the last five kept. */
  lemma RemoveNested(s: string)
    requires s == "<|eot" + EndOfTurn + "_id|>"
    ensures RemoveAll(s, EndOfTurn) == EndOfTurn
  {
    var pat := EndOfTurn;
    NoTokenBefore(s);
    KeptRun(s, pat, 0, 5);
    assert RemoveFrom(s, pat, 5) == s[15..] by {
      assert s[5..15] == pat;
      assert RemoveFrom(s, pat, 15) == s[15..];
    }
    assert s[0..5] + s[15..] == pat;
  }

  /** No token starts among the first five characters of the nested token. */
  lemma NoTokenBefore(s: string)
    requires s == "<|eot" + EndOfTurn + "_id|>"
    ensures |s| == 20 && forall k :: 0 <= k < 5 ==> !OccursAt(s, EndOfTurn, k)
  {
    forall k | 0 <= k < 5 ensures !OccursAt(s, EndOfTurn, k) {
      if k == 0 {
        assert s[5] == '<' && EndOfTurn[5] == '_';
        MismatchNotOccurs(s, EndOfTurn, 0, 5);
      } else {
        assert s[k] != '<';
        MismatchNotOccurs(s, EndOfTurn, k, 0);
      }
    }
  }
}
