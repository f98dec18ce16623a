/** The scripted responder `buildAssistantReply`: lower-case the input,
    turn `?`, `!`, `.` and `,` into spaces, answer with the response of the
    first phrase rule one of whose triggers occurs in the result, and
    otherwise fall back on a reply chosen by the input's length. */
module Responder {
  import opened Text

  datatype Option<T> = None | Some(value: T)

  /** A phrase rule: when any of `triggers` occurs in the normalised input,
      the reply is `response`. */
  datatype Rule = Rule(triggers: seq<string>, response: string)

  const Greeting: string :=
    "Привіт! Я Codex — автономний AI-розробник, який втілює ідеї у вебзастосунках."
  const Skills: string :=
    "Я пишу код, приймаю технічні рішення, налаштовую інфраструктуру та готую проєкти до деплою."
  const Workflow: string :=
    "Я самостійно аналізую задачу, обираю стек, будую архітектуру й відразу реалізовую рішення без додаткових вказівок."
  const Stack: string :=
    "Переважно використовую Next.js, React, Tailwind та Vercel, але адаптуюсь під вимоги завдання."
  /** The reply to a short input that no rule recognises. */
  const AskMore: string :=
    "Розкажи трохи більше, і я з радістю відповім."
  /** The reply to a longer input that no rule recognises. */
  const Generic: string :=
    "Я опрацьовую ідеї, перетворюючи туманні запити на чіткі веб-рішення. "
    + "Можеш спитати про мої можливості, стек чи підхід до автономної роботи."

  /** The phrase table, in the order in which it is consulted. */
  const Rules: seq<Rule> := [
    Rule(["привіт", "хто ти", "ти хто", "як тебе звати"], Greeting),
    Rule(["що ти вмієш", "що ти робиш", "можеш зробити"], Skills),
    Rule(["як працюєш", "як ти працюєш", "як саме ти працюєш"], Workflow),
    Rule(["які технології", "який стек", "технології підтримуєш"], Stack)
  ]

  /** Every reply the responder can give. */
  const Replies: seq<string> := [Greeting, Skills, Workflow, Stack, AskMore, Generic]

  /** The input as the rules see it: lower-cased, punctuation turned into spaces. */
  function Prepare(rawInput: string): string
  {
    Normalize(ToLower(rawInput))
  }

  /** Reference definition: some phrase of `triggers` is a substring of `text`. */
  ghost predicate SomeOccurs(triggers: seq<string>, text: string)
  {
    exists k :: 0 <= k < |triggers| && Occurs(text, triggers[k])
  }

  /** `rule` fires on `text`. */
  ghost predicate Fires(rule: Rule, text: string)
  {
    SomeOccurs(rule.triggers, text)
  }

  /** `triggers.some(phrase => text.includes(phrase))`, tried left to right. */
  function AnyTrigger(triggers: seq<string>, text: string): bool
  {
    triggers != [] && (Includes(text, triggers[0]) || AnyTrigger(triggers[1..], text))
  }

  /** The left-to-right scan of the triggers answers exactly whether one of
      them is a substring of `text`. */
  lemma {:induction false} AnyTriggerIffSomeOccurs(triggers: seq<string>, text: string)
    ensures AnyTrigger(triggers, text) <==> SomeOccurs(triggers, text)
  {
    if triggers != [] {
      IncludesIffOccurs(text, triggers[0]);
      AnyTriggerIffSomeOccurs(triggers[1..], text);
      if SomeOccurs(triggers[1..], text) {
        var k :| 0 <= k < |triggers[1..]| && Occurs(text, triggers[1..][k]);
        assert Occurs(text, triggers[k + 1]);
      }
      if SomeOccurs(triggers, text) && !Occurs(text, triggers[0]) {
        var k :| 0 <= k < |triggers| && Occurs(text, triggers[k]);
        assert Occurs(text, triggers[1..][k - 1]);
      }
    }
  }

  /** The index of the first rule of `rules` whose triggers the scan finds
      in `text`, or None: the loop over the table that returns on the first
      hit. */
  function FirstMatch(rules: seq<Rule>, text: string): (m: Option<nat>)
    ensures m.Some? ==> m.value < |rules|
  {
    if rules == [] then None
    else if AnyTrigger(rules[0].triggers, text) then Some(0)
    else
      match FirstMatch(rules[1..], text)
      case None => None
      case Some(i) => Some(i + 1)
  }

  /** The scan of the table stops at the first rule that fires, and finds
      nothing exactly when no rule fires. */
  lemma {:induction false} FirstMatchIsFirstFiring(rules: seq<Rule>, text: string)
    ensures FirstMatch(rules, text).Some? ==>
      var i := FirstMatch(rules, text).value;
      Fires(rules[i], text) && forall j :: 0 <= j < i ==> !Fires(rules[j], text)
    ensures FirstMatch(rules, text).None? ==> forall j :: 0 <= j < |rules| ==> !Fires(rules[j], text)
  {
    if rules != [] {
      AnyTriggerIffSomeOccurs(rules[0].triggers, text);
      FirstMatchIsFirstFiring(rules[1..], text);
      assert forall j :: 1 <= j < |rules| ==> rules[j] == rules[1..][j - 1];
    }
  }

  /** `buildAssistantReply`: the response of the first rule that fires on the
      prepared input; otherwise the short-input prompt when the lower-cased
      input is shorter than four UTF-16 code units, else the generic reply.
      It is total and only ever answers one of the six fixed replies. */
  function Reply(rawInput: string): (r: string)
    ensures r in Replies
  {
    var input := ToLower(rawInput);
    match FirstMatch(Rules, Normalize(input))
    case Some(i) => Rules[i].response
    case None => if CodeUnits(input) < 4 then AskMore else Generic
  }

  /** The six replies are pairwise different, so a reply tells which branch
      produced it. */
  lemma RepliesDistinct()
    ensures forall i, j :: 0 <= i < j < |Replies| ==> Replies[i] != Replies[j]
  {
    assert |Greeting| == 77 && |Skills| == 91 && |Workflow| == 114;
    assert |Stack| == 93 && |AskMore| == 45 && |Generic| == 139;
  }

  /** Rule `i` answers exactly when it fires on the prepared input and no
      earlier rule does: table order breaks ties. */
  lemma ReplyIsRuleResponse(rawInput: string, i: nat)
    requires i < |Rules|
    ensures Reply(rawInput) == Rules[i].response <==>
      Fires(Rules[i], Prepare(rawInput)) && forall j :: 0 <= j < i ==> !Fires(Rules[j], Prepare(rawInput))
  {
    RepliesDistinct();
    FirstMatchIsFirstFiring(Rules, Prepare(rawInput));
    assert Rules[i].response == Replies[i];
  }

  /** Some rule fires on `text`. */
  ghost predicate AnyRuleFires(text: string)
  {
    exists j :: 0 <= j < |Rules| && Fires(Rules[j], text)
  }

  /** The short-input prompt is the reply exactly when no rule fires and the
      input is shorter than four UTF-16 code units; the empty input is one. */
  lemma ReplyIsAskMore(rawInput: string)
    ensures Reply(rawInput) == AskMore <==>
      !AnyRuleFires(Prepare(rawInput)) && CodeUnits(rawInput) < 4
  {
    ToLowerKeepsCodeUnits(rawInput);
    NoRuleFires(rawInput);
  }

  /** The generic reply is given exactly when no rule fires and the input is
      at least four UTF-16 code units long; it is one fixed string for all
      such inputs. */
  lemma ReplyIsGeneric(rawInput: string)
    ensures Reply(rawInput) == Generic <==>
      !AnyRuleFires(Prepare(rawInput)) && CodeUnits(rawInput) >= 4
  {
    ToLowerKeepsCodeUnits(rawInput);
    NoRuleFires(rawInput);
  }

  /** No rule fires exactly when the reply is one of the two fallbacks, and
      then the lower-cased input's length chooses between them. */
  lemma NoRuleFires(rawInput: string)
    ensures !AnyRuleFires(Prepare(rawInput)) <==> Reply(rawInput) == AskMore || Reply(rawInput) == Generic
    ensures !AnyRuleFires(Prepare(rawInput)) ==>
      Reply(rawInput) == if CodeUnits(ToLower(rawInput)) < 4 then AskMore else Generic
  {
    RepliesDistinct();
    var text := Prepare(rawInput);
    FirstMatchIsFirstFiring(Rules, text);
    match FirstMatch(Rules, text)
    case Some(i) =>
      assert AnyRuleFires(text);
      assert Reply(rawInput) == Replies[i];
    case None =>
  }

  /** Preparing commutes with taking a window of the input. */
  lemma PrepareWindow(rawInput: string, i: nat, j: nat)
    requires i <= j <= |rawInput|
    ensures Prepare(rawInput)[i..j] == Prepare(rawInput[i..j])
  {
    var whole, part := Prepare(rawInput), Prepare(rawInput[i..j]);
    assert |whole[i..j]| == |part|;
    forall k | 0 <= k < |part|
      ensures whole[i..j][k] == part[k]
    {
      assert rawInput[i..j][k] == rawInput[i + k];
    }
  }

  /** A rule fires when some window of the raw input becomes one of its
      triggers once lower-cased and stripped of punctuation: matching is
      insensitive to letter case and treats `?!.,` as spaces. */
  lemma TriggerInWindowFires(rawInput: string, r: nat, k: nat, i: nat)
    requires r < |Rules| && k < |Rules[r].triggers|
    requires i + |Rules[r].triggers[k]| <= |rawInput|
    requires Prepare(rawInput[i..i + |Rules[r].triggers[k]|]) == Rules[r].triggers[k]
    ensures Fires(Rules[r], Prepare(rawInput))
  {
    var t := Rules[r].triggers[k];
    PrepareWindow(rawInput, i, i + |t|);
    assert OccursAt(Prepare(rawInput), t, i);
  }

  /** Any input holding "привіт" in any letter case, wherever it stands and
      whatever punctuation surrounds it, is answered with the greeting. */
  lemma GreetingAnyCase(rawInput: string, i: nat)
    requires i + 6 <= |rawInput|
    requires ToLower(rawInput[i..i + 6]) == "привіт"
    ensures Reply(rawInput) == Greeting
  {
    assert Prepare(rawInput[i..i + 6]) == Rules[0].triggers[0] by {
      NormalizeKeeps("привіт");
    }
    TriggerInWindowFires(rawInput, 0, 0, i);
    assert Reply(rawInput) == Rules[0].response by {
      ReplyIsRuleResponse(rawInput, 0);
    }
  }

  /** The table is scanned in order: once rule `a` fires, no later rule `b`
      can supply the reply, whether or not `b` fires as well. */
  lemma EarlierRuleWins(rawInput: string, a: nat, b: nat)
    requires a < b < |Rules|
    requires Fires(Rules[a], Prepare(rawInput))
    ensures Reply(rawInput) != Rules[b].response
  {
    ReplyIsRuleResponse(rawInput, b);
  }

  /** An input such as "привіт, що ти вмієш" fires both the greeting rule and
      the skills rule; the greeting, being first, is the reply. */
  lemma GreetingBeforeSkills(rawInput: string, i: nat, j: nat)
    requires i + 6 <= |rawInput| && ToLower(rawInput[i..i + 6]) == "привіт"
    requires j + 11 <= |rawInput| && Prepare(rawInput[j..j + 11]) == "що ти вмієш"
    ensures Fires(Rules[1], Prepare(rawInput))
    ensures Reply(rawInput) == Greeting
  {
    TriggerInWindowFires(rawInput, 1, 0, j);
    GreetingAnyCase(rawInput, i);
  }

  /** Every trigger is at least six characters long. */
  lemma TriggersAtLeastSix()
    ensures forall r, k :: 0 <= r < |Rules| && 0 <= k < |Rules[r].triggers| ==> |Rules[r].triggers[k]| >= 6
  {
  }

  /** An input of fewer than six characters cannot hold any trigger. */
  lemma TooShortForAnyTrigger(rawInput: string)
    requires |rawInput| < 6
    ensures !AnyRuleFires(Prepare(rawInput))
  {
    TriggersAtLeastSix();
    var text := Prepare(rawInput);
    forall r | 0 <= r < |Rules|
      ensures !Fires(Rules[r], text)
    {
      forall k, i | 0 <= k < |Rules[r].triggers|
        ensures !OccursAt(text, Rules[r].triggers[k], i)
      {
      }
    }
  }

  /** An input shorter than four UTF-16 code units — the empty input among
      them — always gets the short-input prompt. */
  lemma ShortInputAsksForMore(rawInput: string)
    requires CodeUnits(rawInput) < 4
    ensures Reply(rawInput) == AskMore
  {
    TooShortForAnyTrigger(rawInput);
    ReplyIsAskMore(rawInput);
  }

  /** An input of fewer than six characters with at least four UTF-16 code
      units is too short for a trigger yet too long for the prompt: it gets
      the generic reply. So "  ок" gets the generic reply while "ок" gets the
      short-input prompt, although both trim to the same text. */
  lemma MidLengthInputGetsGeneric(rawInput: string)
    requires |rawInput| < 6 && CodeUnits(rawInput) >= 4
    ensures Reply(rawInput) == Generic
  {
    TooShortForAnyTrigger(rawInput);
    ReplyIsGeneric(rawInput);
  }
}
