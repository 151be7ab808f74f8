/**
 * The two normalizers side by side: `tts_prononcable` (services/vocal.py), which
 * the text-to-speech side uses, and `prononcable` (action-onboard.py), which
 * builds the injected vocabulary. They make the same replacements; the first
 * also splits camel case into space-separated words.
 */
module Normalizers {
  import opened Strings
  import opened Punctuation
  import opened Vocal
  import opened Onboard

  /**
   * On text without a line break the two normalizers agree exactly when the
   * replaced text has no camel-case boundary; otherwise the spoken phrase is
   * longer by one space per extra word.
   */
  lemma NormalizersAgreeIff(text: string)
    requires '\n' !in text
    ensures var parts := CamelCaseSplit(Spoken(text));
            parts != [] ==> |TtsPhrase(text)| == |PlainPhrase(text)| + |parts| - 1
    ensures TtsPhrase(text) == PlainPhrase(text) <==> forall q :: !Boundary(Spoken(text), q)
  {
    var s := Spoken(text);
    var parts := CamelCaseSplit(s);
    CamelCaseSplitSpec(s);
    OneFragmentIffNoBoundary(s);
    if parts != [] {
      if |parts| == 1 {
        assert Join(parts, " ") == parts[0] == Concat(parts) by {
          assert parts[1..] == [];
        }
      }
    }
  }

  /** The contrast on an intent name: the spoken phrase has the space the vocabulary lacks. */
  lemma GetWeatherContrast()
    ensures TtsPhrase("GetWeather") == "get weather"
    ensures PlainPhrase("GetWeather") == "getweather"
    ensures TtsPhrase("GetWeather") != PlainPhrase("GetWeather")
  {
    TtsGetWeather();
    PhraseGetWeather();
  }

  /** Text with no upper-case letter comes out of both normalizers the same. */
  lemma NormalizersAgreeWithoutCapitals(text: string)
    requires '\n' !in text && NoUpper(text)
    ensures TtsPhrase(text) == PlainPhrase(text)
  {
    NormalizersAgreeIff(text);
    SpokenNoUpper(text);
    NoUpperNoBoundary(Spoken(text));
  }
}
