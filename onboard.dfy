/**
 * action-onboard.py: the normalizer `prononcable`, the pronunciation table that
 * `OnBoardingApp.__init__` builds, the vocabulary injection `_inject` publishes
 * and the request handler `handle_intent_sample`.
 *
 * The assistant's dataset is a parameter (loading it from disk is not modelled),
 * published messages are returned values, and `random.sample` is a
 * nondeterministic choice of distinct positions.
 */
module Onboard {
  import opened Strings
  import opened Punctuation
  import opened Dicts

  // ---------------------------------------------------------------------------
  // prononcable

  /** What `prononcable(text)` returns: the replacements, then lower-casing. */
  function PlainPhrase(text: string): (t: string)
    ensures NoPunctuation(t)
    ensures NoUpper(t)
    ensures |t| == |text| + Count(text, '@') + 2 * Count(text, '&')
    ensures NoPunctuation(text) ==> t == Lower(text)
  {
    LowerNoPunctuation(Spoken(text));
    Lower(Spoken(text))
  }

  /** `prononcable(text)` */
  method Prononcable(text: string) returns (r: string)
    ensures r == PlainPhrase(text)
  {
    r := ReplacePunctuation(text);
    r := Lower(r);
  }

  /** A phrase is its own phrase. */
  lemma PlainPhraseIdempotent(text: string)
    ensures PlainPhrase(PlainPhrase(text)) == PlainPhrase(text)
  {
  }

  /** On a concatenation `prononcable` gives the concatenation of the parts. */
  lemma PlainPhraseAppend(a: string, b: string)
    ensures PlainPhrase(a + b) == PlainPhrase(a) + PlainPhrase(b)
  {
    SpokenAppend(a, b);
    LowerAppend(Spoken(a), Spoken(b));
  }

  /** What `prononcable` makes of one character. */
  lemma PlainPhraseOfChar(c: char)
    ensures PlainPhrase([c]) == if c in Separators then " "
                                else if c == '@' then "at"
                                else if c == '&' then "and"
                                else [LowerChar(c)]
  {
    assert Spoken([c]) == SpokenChar(c) + Spoken([]);
  }

  // ---------------------------------------------------------------------------
  // The pronunciation table of OnBoardingApp.__init__

  /**
   * `{prononcable(_): _ for _ in names}`: every name's phrase is a key, and every
   * key maps to a name whose phrase it is. Which name wins a shared phrase, the
   * order of the keys and when the table has one key per name are stated by the
   * lemmas on `Comprehension`.
   */
  function BuildTable(names: seq<string>): (t: Dict<string, string>)
    ensures t.Valid()
    ensures forall i :: 0 <= i < |names| ==> PlainPhrase(names[i]) in t.entries
    ensures forall k :: k in t.entries ==> t.entries[k] in names && PlainPhrase(t.entries[k]) == k
  {
    ComprehensionValid(PlainPhrase, names);
    ComprehensionValues(PlainPhrase, names);
    Comprehension(PlainPhrase, names)
  }

  // ---------------------------------------------------------------------------
  // The app: its dataset, the injection and the sample handler

  /** An intent of the assistant's dataset, given by the texts of its utterances. */
  datatype Intent = Intent(utterances: seq<string>)

  /** The loaded assistant: `dataset.intent_per_name`. */
  datatype Assistant = Assistant(intentPerName: Dict<string, Intent>)

  const MqttTopicInject: string := "hermes/injection/perform"

  /** `INTENT_SAMPLE_SLOT_NAME` of the English translations. */
  const IntentSampleSlotName: string := "intentName"

  const AddFromVanilla: string := "addFromVanilla"

  /** One injection operation: its name and, per slot, the phrases to add. */
  datatype Operation = Operation(kind: string, values: map<string, seq<string>>)

  /** A message published on `topic` with payload `{"operations": operations}`. */
  datatype Message = Publish(topic: string, operations: seq<Operation>)

  /** The recognized intent: its session and the raw values of its `intentName` slot. */
  datatype IntentMessage = IntentMessage(sessionId: string, intentNameSlot: seq<string>)

  /** The Python exceptions the handler can raise. */
  datatype PyError = IndexError | KeyError(key: string) | ValueError

  /** What one call of the handler does: end the session with a sentence, or raise. */
  datatype Outcome = EndSession(sessionId: string, text: string) | Raised(error: PyError)

  /** Three distinct positions below `n`: what `random.sample(population, 3)` picks. */
  predicate DistinctPositions(n: int, i: int, j: int, k: int)
    ensures DistinctPositions(n, i, j, k) ==> n >= 3
  {
    0 <= i < n && 0 <= j < n && 0 <= k < n && i != j && j != k && i != k
  }

  datatype OnBoardingApp = OnBoardingApp(assistant: Assistant, intentPrononciationTable: Dict<string, string>)
  {
    /** The state `__init__` leaves: the table is built from the dataset's intent names in their order. */
    ghost predicate Valid()
    {
      && assistant.intentPerName.Valid()
      && intentPrononciationTable == BuildTable(assistant.intentPerName.keys)
    }

    /**
     * `_inject`: one `addFromVanilla` operation on the injection topic, whose only
     * slot is `intentName` and whose phrases are the table's keys in insertion
     * order, each once.
     */
    function Inject(): (m: Message)
      requires Valid()
      ensures m.topic == MqttTopicInject
      ensures |m.operations| == 1 && m.operations[0].kind == AddFromVanilla
      ensures m.operations[0].values.Keys == {IntentSampleSlotName}
      ensures m.operations[0].values[IntentSampleSlotName] == intentPrononciationTable.keys
      ensures var phrases := m.operations[0].values[IntentSampleSlotName];
              && (forall i, j :: 0 <= i < j < |phrases| ==> phrases[i] != phrases[j])
              && (forall p :: p in phrases <==> p in intentPrononciationTable.entries)
              && (forall n :: n in assistant.intentPerName.entries ==> PlainPhrase(n) in phrases)
    {
      intentPrononciationTable.KeysListEntries();
      TableCoversIntents();
      Publish(MqttTopicInject, [Operation(AddFromVanilla, map[IntentSampleSlotName := intentPrononciationTable.keys])])
    }

    /**
     * The injected phrases come in the order in which the intents' phrases
     * first occur among the intent names in the dataset's order.
     */
    lemma InjectFollowsIntentOrder()
      requires Valid()
      ensures var phrases := Inject().operations[0].values[IntentSampleSlotName];
              var names := assistant.intentPerName.keys;
              forall a, b :: 0 <= a < b < |phrases| ==>
                FirstIndexOfKey(PlainPhrase, names, phrases[a]) < FirstIndexOfKey(PlainPhrase, names, phrases[b]) < |names|
    {
      var names := assistant.intentPerName.keys;
      var phrases := Inject().operations[0].values[IntentSampleSlotName];
      assert phrases == intentPrononciationTable.keys;
      assert phrases == Comprehension(PlainPhrase, names).keys;
      forall a, b | 0 <= a < b < |phrases|
        ensures FirstIndexOfKey(PlainPhrase, names, phrases[a]) < FirstIndexOfKey(PlainPhrase, names, phrases[b]) < |names|
      {
        KeyPairOrder(PlainPhrase, names, a, b);
      }
    }

    /** Every intent's phrase is among the table's keys in order. */
    lemma TableCoversIntents()
      requires Valid()
      ensures forall n :: n in assistant.intentPerName.entries ==> PlainPhrase(n) in intentPrononciationTable.keys
    {
      var names := assistant.intentPerName.keys;
      forall n | n in assistant.intentPerName.entries
        ensures PlainPhrase(n) in intentPrononciationTable.keys
      {
        var i :| 0 <= i < |names| && names[i] == n;
        ElementKeyListed(PlainPhrase, names, i);
      }
    }

    /**
     * `handle_intent_sample`: the first raw value of the slot is looked up as it
     * is; a miss raises `KeyError`, fewer than three utterances raise
     * `ValueError`, otherwise the session ends with the sentence made from the
     * intent's name and three utterances at distinct positions.
     */
    method HandleIntentSample(hereIsExamples: (string, string) -> string, message: IntentMessage)
      returns (out: Outcome)
      requires Valid()
      ensures message.intentNameSlot == [] ==> out == Raised(IndexError)
      ensures (message.intentNameSlot != [] && message.intentNameSlot[0] !in intentPrononciationTable.entries) ==>
                out == Raised(KeyError(message.intentNameSlot[0]))
      ensures (message.intentNameSlot != [] && message.intentNameSlot[0] in intentPrononciationTable.entries) ==>
                var name := intentPrononciationTable.entries[message.intentNameSlot[0]];
                    var texts := assistant.intentPerName.entries[name].utterances;
                    && (|texts| < 3 ==> out == Raised(ValueError))
                    && (|texts| >= 3 ==>
                          exists i, j, k :: DistinctPositions(|texts|, i, j, k) &&
                            out == EndSession(message.sessionId, hereIsExamples(name, Join([texts[i], texts[j], texts[k]], ". "))))
    {
      if message.intentNameSlot == [] {
        return Raised(IndexError);
      }
      var asrIntentName := message.intentNameSlot[0];
      if asrIntentName !in intentPrononciationTable.entries {
        return Raised(KeyError(asrIntentName));
      }
      var intentName := intentPrononciationTable.entries[asrIntentName];
      var utterances := assistant.intentPerName.entries[intentName].utterances;
      if |utterances| < 3 {
        return Raised(ValueError);
      }
      assert DistinctPositions(|utterances|, 0, 1, 2);
      var i, j, k :| DistinctPositions(|utterances|, i, j, k);
      assert DistinctPositions(|utterances|, i, j, k);
      var sampledUtterances := [utterances[i], utterances[j], utterances[k]];
      var resultSentence := hereIsExamples(intentName, Join(sampledUtterances, ". "));
      out := EndSession(message.sessionId, resultSentence);
    }
  }

  /**
   * `OnBoardingApp.__init__` on a loaded dataset: the table is built from the
   * intent names in order, and each intent's phrase is a key leading to an
   * intent with that phrase.
   */
  function NewOnBoardingApp(assistant: Assistant): (app: OnBoardingApp)
    requires assistant.intentPerName.Valid()
    ensures app.Valid() && app.assistant == assistant
    ensures forall n :: n in assistant.intentPerName.entries ==>
              PlainPhrase(n) in app.intentPrononciationTable.entries &&
              PlainPhrase(app.intentPrononciationTable.entries[PlainPhrase(n)]) == PlainPhrase(n)
  {
    OnBoardingApp(assistant, BuildTable(assistant.intentPerName.keys))
  }

  // ---------------------------------------------------------------------------
  // Examples

  lemma PhraseGetWeather()
    ensures PlainPhrase("GetWeather") == "getweather"
  {
    calc {
      PlainPhrase("GetWeather");
      Lower(Spoken("GetWeather"));
      { SpokenGetWeather(); }
      Lower("GetWeather");
      "getweather";
    }
  }

  lemma PhraseTurnOnTheLights()
    ensures PlainPhrase("TurnOnTheLights") == "turnonthelights"
  {
    calc {
      PlainPhrase("TurnOnTheLights");
      Lower(Spoken("TurnOnTheLights"));
      { SpokenTurnOnTheLights(); }
      Lower("TurnOnTheLights");
      "turnonthelights";
    }
  }

  /**
   * A dataset with the intents `GetWeather` and `TurnOnTheLights`: the injected
   * vocabulary is "getweather" and "turnonthelights", each leading back to its
   * intent.
   */
  lemma TableOfTwoIntents()
    ensures BuildTable(["GetWeather", "TurnOnTheLights"]).keys == ["getweather", "turnonthelights"]
    ensures BuildTable(["GetWeather", "TurnOnTheLights"]).entries ==
              map["getweather" := "GetWeather", "turnonthelights" := "TurnOnTheLights"]
  {
    PhraseGetWeather();
    PhraseTurnOnTheLights();
    ComprehensionOfTwo(PlainPhrase, "GetWeather", "TurnOnTheLights");
  }

  /** The spaced phrase "get weather" is not part of that vocabulary: asking for it raises `KeyError`. */
  lemma SpacedPhraseNotInjected()
    ensures "get weather" !in BuildTable(["GetWeather", "TurnOnTheLights"]).entries
  {
    var m := map["getweather" := "GetWeather", "turnonthelights" := "TurnOnTheLights"];
    assert "get weather" !in m.Keys by {
      assert m.Keys == {"getweather", "turnonthelights"};
      assert |"get weather"| != |"getweather"| && |"get weather"| != |"turnonthelights"|;
    }
    TableOfTwoIntents();
    assert BuildTable(["GetWeather", "TurnOnTheLights"]).entries.Keys == m.Keys;
  }
}
