/**
 * The first two normalization steps, which `tts_prononcable` and `prononcable`
 * contain word for word: each separator becomes a space, `@` becomes "at" and
 * `&` becomes "and". The steps are written once, as the loop of `str.replace`
 * calls the source runs, and proved equal to a character-by-character reading.
 */
module Punctuation {
  import opened Strings

  /** The separators, in the order the loop replaces them. */
  const Separators: string := "_-,.:/!<>*#[]()="

  /** No separator, no `@` and no `&`. */
  predicate NoPunctuation(t: string)
  {
    forall c :: c in t ==> c !in Separators && c != '@' && c != '&'
  }

  /** Lower-casing brings in no punctuation: it only turns letters into letters. */
  lemma LowerNoPunctuation(t: string)
    requires NoPunctuation(t)
    ensures NoPunctuation(Lower(t))
  {
    forall c | c in Separators + "@&"
      ensures c !in Lower(t)
    {
      LowerKeeps(t, c);
    }
  }

  /** What one input character becomes after the replacements. */
  function SpokenChar(c: char): (t: string)
    ensures NoPunctuation(t)
    ensures c !in Separators && c != '@' && c != '&' ==> t == [c]
    ensures c != '\n' ==> '\n' !in t
    ensures !IsUpper(c) ==> NoUpper(t)
    ensures |t| == 1 + (if c == '@' then 1 else 0) + (if c == '&' then 2 else 0)
  {
    ReplacementWords();
    if c in Separators then " "
    else if c == '@' then "at"
    else if c == '&' then "and"
    else [c]
  }

  /** The three replacement words hold no punctuation and no upper-case letter. */
  lemma ReplacementWords()
    ensures NoPunctuation(" ") && NoPunctuation("at") && NoPunctuation("and")
    ensures NoUpper(" ") && NoUpper("at") && NoUpper("and")
  {
    LettersNoPunctuation("at");
    LettersNoPunctuation("and");
  }

  /** The replacements, character by character. */
  function Spoken(s: string): (t: string)
    ensures NoPunctuation(t)
    ensures NoPunctuation(s) ==> t == s
    ensures '\n' !in s ==> '\n' !in t
    ensures |t| == |s| + Count(s, '@') + 2 * Count(s, '&')
  {
    if s == [] then []
    else
      assert s == [s[0]] + s[1..];
      assert s[0] in s;
      assert forall c :: c in s[1..] ==> c in s;
      SpokenChar(s[0]) + Spoken(s[1..])
  }

  lemma {:induction false} SpokenAppend(a: string, b: string)
    ensures Spoken(a + b) == Spoken(a) + Spoken(b)
  {
    if a == [] {
      assert a + b == b;
    } else {
      assert (a + b)[0] == a[0];
      assert (a + b)[1..] == a[1..] + b;
      SpokenAppend(a[1..], b);
    }
  }

  /** The replacements bring in no upper-case letter. */
  lemma {:induction false} SpokenNoUpper(s: string)
    requires NoUpper(s)
    ensures NoUpper(Spoken(s))
  {
    if s != [] {
      assert s[0] in s;
      assert NoUpper(s[1..]) by {
        forall c | c in s[1..]
          ensures !IsUpper(c)
        {
          assert c in s;
        }
      }
      SpokenNoUpper(s[1..]);
      var h, t := SpokenChar(s[0]), Spoken(s[1..]);
      assert Spoken(s) == h + t;
      forall c | c in h + t
        ensures !IsUpper(c)
      {
        assert c in h || c in t;
      }
    }
  }

  /** `s` with every character that occurs in `cs` turned into a space. */
  function Blank(s: string, cs: string): string
  {
    if s == [] then [] else [if s[0] in cs then ' ' else s[0]] + Blank(s[1..], cs)
  }

  /** One iteration of the separator loop blanks one more separator. */
  lemma {:induction false} BlankStep(s: string, cs: string, c: char)
    requires c != ' '
    ensures Replace(Blank(s, cs), c, " ") == Blank(s, cs + [c])
  {
    if s != [] {
      var b := Blank(s, cs);
      assert b[0] == (if s[0] in cs then ' ' else s[0]);
      assert b[1..] == Blank(s[1..], cs);
      BlankStep(s[1..], cs, c);
    }
  }

  /** After all separators are blanked, the two word replacements give `Spoken`. */
  lemma {:induction false} ReplacementsAreSpoken(s: string)
    ensures Replace(Replace(Blank(s, Separators), '@', "at"), '&', "and") == Spoken(s)
  {
    if s != [] {
      var b := Blank(s, Separators);
      var y := if s[0] in Separators then ' ' else s[0];
      assert b[0] == y && b[1..] == Blank(s[1..], Separators);
      var head := if y == '@' then "at" else [y];
      var rest := Replace(Blank(s[1..], Separators), '@', "at");
      assert Replace(b, '@', "at") == head + rest;
      ReplaceAppend(head, rest, '&', "and");
      ReplacementsAreSpoken(s[1..]);
      assert Replace(head, '&', "and") == SpokenChar(s[0]);
    }
  }

  /**
   * The replacement loop shared by `tts_prononcable` and `prononcable`: one
   * `replace` per separator, then `@` and `&`.
   */
  method ReplacePunctuation(text: string) returns (r: string)
    ensures r == Spoken(text)
  {
    r := text;
    assert text == Blank(text, []) by { BlankNone(text); }
    for i := 0 to |Separators|
      invariant r == Blank(text, Separators[..i])
    {
      assert Separators[i] != ' ';
      BlankStep(text, Separators[..i], Separators[i]);
      assert Separators[..i] + [Separators[i]] == Separators[..i + 1];
      r := Replace(r, Separators[i], " ");
    }
    assert Separators[..|Separators|] == Separators;
    r := Replace(r, '@', "at");
    r := Replace(r, '&', "and");
    ReplacementsAreSpoken(text);
  }

  lemma {:induction false} BlankNone(s: string)
    ensures Blank(s, []) == s
  {
    if s != [] {
      BlankNone(s[1..]);
    }
  }

  /** A string of letters holds no punctuation. */
  lemma LettersNoPunctuation(t: string)
    requires forall c :: c in t ==> IsUpper(c) || IsLower(c)
    ensures NoPunctuation(t)
  {
  }

  lemma SpokenGetWeather()
    ensures Spoken("GetWeather") == "GetWeather"
  {
    LettersNoPunctuation("GetWeather");
  }

  lemma SpokenTurnOnTheLights()
    ensures Spoken("TurnOnTheLights") == "TurnOnTheLights"
  {
    LettersNoPunctuation("TurnOnTheLights");
  }
}
