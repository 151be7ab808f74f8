# Snips onboarding app: intent names as speakable phrases

This project models the core of the Snips onboarding app. The app answers the
question "give me examples of intent X" about a Snips voice assistant. To make
intent identifiers such as `GetWeather` recognisable by speech, it turns them
into plain phrases. It injects those phrases into the speech recogniser as the
vocabulary of the `intentName` slot. When the intent `intentSamples` is
recognised, it looks the heard phrase up, picks three example utterances of the
matching intent and ends the session with one sentence.

The model has seven modules:

- `Strings`: the Python string operations the code relies on.
  - `str.replace` with a one-character pattern.
  - `str.lower` on ASCII.
  - `str.join`.
  - The regular-expression classes `[a-z]` and `[A-Z]`.
- `Punctuation`: the replacement step that both normalizers contain word for word.
  - Each of `_-,.:/!<>*#[]()=` becomes a space, `@` becomes "at" and `&` becomes "and".
  - It is written as the loop of `replace` calls the code runs (`ReplacePunctuation`).
  - It is proved equal to a character-by-character reading (`Spoken`).
- `Vocal` (`services/vocal.py`): `camel_case_split` and `tts_prononcable`.
  - The regular expression is modelled as the engine runs it.
  - The lazy `.+?` stops at the first position that is a camel-case boundary, the end, or a newline.
  - `$` also matches just before a final newline.
  - A failed attempt moves on by one position.
  - On newline-free input, the fragments are proved to be the unique cutting of the string at exactly its boundaries.
  - A boundary lies between lower and upper case, or between an upper-case letter and an upper-then-lower pair.
- `Dicts`: Python's insertion-ordered `dict` and the comprehension `{key(x): x for x in xs}`.
  - It proves last-write-wins, the order of the keys and the collision-free round trip.
- `Onboard` (`action-onboard.py`):
  - `prononcable`;
  - the pronunciation table built in `OnBoardingApp.__init__`;
  - the injection message of `_inject`, as data;
  - `handle_intent_sample`, with its three error outcomes.
- `Normalizers`: how `tts_prononcable` and `prononcable` relate.
  - `action-onboard.py` does not use `services/vocal.py`.
  - The vocabulary it injects therefore has no camel-case spaces ("getweather", not "get weather").
- `Wrappers`: `Option`.

Inputs and effects become parameters or values:

- the loaded assistant dataset is a parameter;
- each published MQTT message is a returned `Message` or `Outcome`;
- `random.sample(utterances, 3)` is a nondeterministic choice of three distinct positions;
- the translated sentence template `HERE_IS_EXAMPLES % (name, examples)` is a function parameter of the handler.

What the code does, as the model states it:

- The table keys come from `prononcable`, which has no camel split.
  - So the dataset `GetWeather`, `TurnOnTheLights` injects "getweather" and "turnonthelights".
  - The phrase "get weather" is not a key (`Onboard.SpacedPhraseNotInjected`).
- A phrase that is not a key raises `KeyError`; there is no fallback branch.
- An intent with fewer than three utterances makes `random.sample` raise `ValueError`; the code does not take `min(k, 3)` samples.
- `intent_message.slots.intentName[0]` on an empty slot list raises `IndexError`.
- `INTENT_SAMPLE_SLOT_NAME` is the constant "intentName" of `translations/en.py:10`.
- The topic "hermes/injection/perform" is that of `action-onboard.py:22`.

## Model

| member | source | states |
|---|---|---|
| Strings.Lower | services/vocal.py:18 | `lower()` keeps the length, leaves no ASCII upper-case letter, and changes nothing in a string that has none |
| Strings.Replace | services/vocal.py:14 | `replace` with a one-character pattern leaves no occurrence of the pattern (if the substitute holds none), is the identity when the pattern is absent, and only brings in characters of the substitute |
| Strings.Join | services/vocal.py:17 | `sep.join(parts)` of a non-empty list is as long as the parts together plus one separator per gap (also used at action-onboard.py:105) |
| Punctuation.Spoken | services/vocal.py:13-16 | after the replacements no separator, `@` or `&` is left. A newline-free text stays newline-free. Text without punctuation is unchanged. The length grows by 1 per `@` and 2 per `&` |
| Punctuation.ReplacementsAreSpoken | services/vocal.py:13-16 | the chain of `replace` calls (separators, then `@`, then `&`) equals the character-by-character replacement |
| Punctuation.ReplacePunctuation | services/vocal.py:13-16 | the replacement loop (identical at action-onboard.py:31-34) returns the character-by-character replacement of its input |
| Punctuation.SpokenNoUpper | services/vocal.py:13-16 | the replacements bring in no upper-case letter |
| Vocal.Boundary | services/vocal.py:7 | the two lookaround alternatives: lower then upper, or upper then upper-then-lower; either way the cut is followed by an upper-case letter and lies strictly inside the text |
| Vocal.EndAnchor | services/vocal.py:7 | `$` without MULTILINE matches at the end or just before a final newline, so only at one of the last two positions; in newline-free text only at the end |
| Vocal.Stop | services/vocal.py:7 | the lazy `.+?` stops at the first position at or after the start that is the end, a newline or a camel-case boundary |
| Vocal.MatchEnd | services/vocal.py:6-7 | a match from `p` is non-empty and newline-free and ends at the first position after `p` where a boundary or `$` matches; when there is none, no newline-free stretch from `p` ends at a boundary or where `$` matches |
| Vocal.CamelCaseSplit | services/vocal.py:5-9 | `camel_case_split` yields non-empty, newline-free fragments, and on newline-free input they cut the text exactly at its camel-case boundaries |
| Vocal.SplitFrom | services/vocal.py:6-9 | every fragment `finditer` yields is non-empty, holds no newline and is made of characters of the input |
| Vocal.SplitFromIsPartition | services/vocal.py:5-9 | on newline-free input the fragments cut the string exactly at its boundaries, with no boundary strictly inside a fragment |
| Vocal.PartitionConcat | services/vocal.py:5-9 | the pieces of such a cutting concatenate back to the string |
| Vocal.PartitionUnique | services/vocal.py:7 | there is only one cutting at exactly the boundaries |
| Vocal.CamelCaseSplitSpec | services/vocal.py:5-9 | for newline-free `s`, `camel_case_split(s)` is the boundary cutting of `s`, concatenates back to `s`, and is the only such cutting |
| Vocal.NoBoundaryOneFragment | services/vocal.py:7 | newline-free text without a boundary comes back as one fragment equal to itself (none for the empty string) |
| Vocal.NoUpperNoBoundary | services/vocal.py:7 | text without upper-case letters has no boundary |
| Vocal.SplitNoUpper | services/vocal.py:5-9 | newline-free text without upper-case letters comes back as one fragment equal to itself |
| Vocal.OneFragmentIffNoBoundary | services/vocal.py:5-9 | newline-free text splits into at most one fragment if and only if it has no boundary |
| Vocal.SplitEmpty | services/vocal.py:6-9 | `camel_case_split("")` is `[]` |
| Vocal.SplitGetWeather | services/vocal.py:6-9 | `camel_case_split("GetWeather")` is `["Get", "Weather"]` |
| Vocal.SplitABCDef | services/vocal.py:6-9 | `camel_case_split("ABCDef")` is `["ABC", "Def"]` (the second alternative) |
| Vocal.SplitTurnOnTheLights | services/vocal.py:6-9 | `camel_case_split("TurnOnTheLights")` is `["Turn", "On", "The", "Lights"]` |
| Vocal.SplitDropsTextBeforeNewline | services/vocal.py:6-9 | `.` refuses a newline, so `"ab\ncd"` splits into `["cd"]` |
| Vocal.SplitDropsFinalNewline | services/vocal.py:6-9 | `$` matches before a final newline, so `"ab\n"` splits into `["ab"]` |
| Vocal.TtsPhrase | services/vocal.py:12-18 | the output of `tts_prononcable` holds no separator, no `@` or `&`, no upper-case letter and no newline |
| Vocal.TtsPrononcable | services/vocal.py:12-18 | the loop, the camel split joined with spaces and the lower-casing compute `TtsPhrase` |
| Vocal.TtsPhraseIdempotent | services/vocal.py:12-18 | applying `tts_prononcable` twice equals applying it once, for every input |
| Vocal.TtsGetWeather | services/vocal.py:12-18 | `tts_prononcable("GetWeather")` is "get weather" |
| Vocal.TtsTurnOnTheLights | services/vocal.py:12-18 | `tts_prononcable("TurnOnTheLights")` is "turn on the lights" |
| Dicts.EmptyDict | action-onboard.py:45-48 | the comprehension starts from `{}`: no keys, no entries, well formed |
| Dicts.Dict.Set | action-onboard.py:46 | `d[k] = v`: a present key keeps its place and takes the new value, a new key goes last, and a well-formed dict stays well formed |
| Dicts.Comprehension | action-onboard.py:45-48 | every element's key is a key of the result, every key maps to a value that has that key, and there are at most as many keys as elements (`Dicts.ComprehensionValues` shows each value is an element) |
| Dicts.ComprehensionValid | action-onboard.py:45-48 | the comprehension yields a well-formed dict: its listed keys are distinct and are exactly the keys of the map (their order is `Dicts.ComprehensionKeyOrder`) |
| Dicts.KeyFrom | action-onboard.py:45-48 | every key of the comprehension comes from an element, and from the last element that has it |
| Dicts.ComprehensionLastWins | action-onboard.py:45-48 | on a collision the key maps to the element that comes last |
| Dicts.ComprehensionValues | action-onboard.py:45-48 | each key's value is the last element with that key, and an element of the input |
| Dicts.FirstIndexOfKey | action-onboard.py:45-48 | the position of the first element with a given key: it has the key and no earlier element has it |
| Dicts.ComprehensionKeyOrder | action-onboard.py:45-48 | the keys are in the order in which each key first occurred |
| Dicts.NoCollisionAppend | action-onboard.py:45-48 | appending an element keeps the elements collision-free exactly when its key is new |
| Dicts.ComprehensionSizeIff | action-onboard.py:45-48 | there are as many keys as elements if and only if no two elements share a key |
| Dicts.ComprehensionRoundTrip | action-onboard.py:45-48 | without collisions every element comes back from its key, and the keys are the elements' keys in order |
| Dicts.ComprehensionCollision | action-onboard.py:45-48 | two elements with one key give a single key mapped to the second element |
| Dicts.ComprehensionOfTwo | action-onboard.py:45-48 | two elements with different keys give both keys in order, each mapped to its element |
| Onboard.PlainPhrase | action-onboard.py:30-35 | the output of `prononcable` holds no separator, no `@` or `&` and no upper-case letter. Its length is the input's plus 1 per `@` and 2 per `&`. Text without punctuation is only lower-cased |
| Onboard.Prononcable | action-onboard.py:30-35 | the replacement loop followed by `lower()` computes `PlainPhrase` |
| Onboard.PlainPhraseIdempotent | action-onboard.py:30-35 | applying `prononcable` twice equals applying it once |
| Onboard.PlainPhraseAppend | action-onboard.py:30-35 | `prononcable` of a concatenation is the concatenation of the parts' results |
| Onboard.PlainPhraseOfChar | action-onboard.py:31-35 | a separator becomes a space, `@` becomes "at", `&` becomes "and", and every other character is kept, lower-cased |
| Onboard.BuildTable | action-onboard.py:45-48 | the table's keys are exactly the phrases of the intent names, and for every key `k`, `prononcable(table[k]) == k` with `table[k]` an intent name |
| Onboard.NewOnBoardingApp | action-onboard.py:43-48 | after `__init__` the table is built from the dataset's names in order, and each intent's phrase is a key that leads to an intent with that phrase; which intent wins a shared phrase is stated by `Dicts.ComprehensionLastWins` |
| Onboard.OnBoardingApp.Inject | action-onboard.py:63-88 | one `addFromVanilla` operation on "hermes/injection/perform"; its only slot is `intentName`; its phrases are exactly the table's keys in insertion order, each once; every intent's phrase is among them |
| Onboard.OnBoardingApp.InjectFollowsIntentOrder | action-onboard.py:79-81 | the injected phrases come in the order in which they first occur as phrases of the dataset's intent names |
| Onboard.DistinctPositions | action-onboard.py:98-101 | what `random.sample(population, 3)` picks: three distinct positions of the population, which exist only when it holds at least three items |
| Onboard.OnBoardingApp.HandleIntentSample | action-onboard.py:90-107 | covers each outcome of the handler. An empty slot list raises `IndexError`. A raw value that is not a key raises `KeyError` with that value. An intent with fewer than 3 utterances raises `ValueError`. Otherwise exactly one end-session is sent on the request's session, with the template applied to the resolved name and 3 utterances from distinct positions joined by ". " |
| Onboard.PhraseGetWeather | action-onboard.py:30-35 | `prononcable("GetWeather")` is "getweather" |
| Onboard.PhraseTurnOnTheLights | action-onboard.py:30-35 | `prononcable("TurnOnTheLights")` is "turnonthelights" |
| Onboard.TableOfTwoIntents | action-onboard.py:45-48 | the intents `GetWeather`, `TurnOnTheLights` give the keys "getweather", "turnonthelights" in that order, each mapped to its intent |
| Onboard.SpacedPhraseNotInjected | action-onboard.py:45-48 | "get weather" is not a key of that table, so hearing it raises `KeyError` |
| Normalizers.NormalizersAgreeIff | services/vocal.py:12-18 | on newline-free text, `tts_prononcable` equals `prononcable` if and only if the replaced text has no camel-case boundary. Otherwise it is longer by one space per extra fragment |
| Normalizers.NormalizersAgreeWithoutCapitals | services/vocal.py:12-18 | on newline-free text without upper-case letters the two normalizers agree |
| Normalizers.GetWeatherContrast | services/vocal.py:12-18 | on "GetWeather" the spoken form "get weather" differs from the injected form "getweather" |

## Left out

- MQTT and Hermes transport is not modelled: `pahoClient`, `mqtt_connect`, `_start`, `loop_forever`, `publish` and `publish_end_session` are network I/O. Each message is a returned value.
- `Assistant.load` of the assistant file and the choice of the translation module through `SnipsAppMixin` and `importlib` are file and configuration I/O. The loaded dataset is a parameter of `NewOnBoardingApp`.
- The byte-level `json.dumps` serialization of the injection payload is not modelled. The payload is the `Message` datatype.
- `random.sample` becomes a nondeterministic choice of three distinct positions. Which positions, and in what order, is not modelled.
- The translation strings are data and are not modelled. The sentence template is a function parameter of `HandleIntentSample`. The English `HERE_IS_EXAMPLES` holds no `%s` (translations/en.py:8), so applying `%` to it with two arguments raises `TypeError` in Python. The model does not model that raise.
- Strings.Lower: lower-cases the ASCII letters `A`-`Z` only, not the whole Unicode range of Python's `str.lower()`.
- Vocal.CamelCaseSplitSpec: the round trip, the boundary cutting and its uniqueness are stated for newline-free input. `camel_case_split` itself is modelled on every input, newlines included, and two examples show the text it drops.
- Normalizers.NormalizersAgreeIff: stated for newline-free input, because there the split is the boundary cutting.
- The `print` calls, the `TODO` about startup announcements and the translation strings nobody uses are not part of the code's behaviour and are not modelled.
