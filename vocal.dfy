/**
 * services/vocal.py: `camel_case_split` and `tts_prononcable`.
 *
 * `camel_case_split` runs `re.finditer` with the pattern
 *   .+?(?:(?<=[a-z])(?=[A-Z])|(?<=[A-Z])(?=[A-Z][a-z])|$)
 * The model follows the regular-expression engine: from a start position the
 * lazy `.+?` takes one character at a time and stops at the first position where
 * one of the three alternatives matches; `.` does not take a newline and `$`
 * also matches just before a final newline; after a failed attempt the search
 * moves on by one position.
 */
module Vocal {
  import opened Wrappers
  import opened Strings
  import opened Punctuation

  /**
   * A camel-case boundary before position `q`: lower then upper (first
   * alternative), or upper then upper-then-lower (second alternative).
   */
  predicate Boundary(s: string, q: int)
    ensures Boundary(s, q) ==> 0 < q < |s| && IsUpper(s[q])
  {
    && 0 < q < |s|
    && ((IsLower(s[q - 1]) && IsUpper(s[q]))
        || (IsUpper(s[q - 1]) && IsUpper(s[q]) && q + 1 < |s| && IsLower(s[q + 1])))
  }

  /** `$` without MULTILINE: the end, or just before a newline that ends the string. */
  predicate EndAnchor(s: string, q: int)
    ensures EndAnchor(s, q) ==> |s| - 1 <= q <= |s|
    ensures '\n' !in s ==> (EndAnchor(s, q) <==> q == |s|)
  {
    q == |s| || (0 <= q == |s| - 1 && s[q] == '\n')
  }

  /**
   * The first position at or after `q` where the lazy `.+?` stops taking
   * characters: the end, a newline (which `.` refuses) or a boundary.
   */
  function Stop(s: string, q: nat): (e: nat)
    requires q <= |s|
    ensures q <= e <= |s|
    ensures e == |s| || s[e] == '\n' || Boundary(s, e)
    ensures forall j :: q <= j < e ==> s[j] != '\n' && !Boundary(s, j)
    decreases |s| - q
  {
    if q == |s| || s[q] == '\n' || Boundary(s, q) then q else Stop(s, q + 1)
  }

  /** The end of the match the pattern finds starting at `p`, if there is one. */
  function MatchEnd(s: string, p: nat): (m: Option<nat>)
    requires p < |s|
    ensures m.Some? ==> p < m.value <= |s|
    ensures m.Some? ==>
              && (forall j :: p <= j < m.value ==> s[j] != '\n')
              && (Boundary(s, m.value) || EndAnchor(s, m.value))
              && (forall j :: p < j < m.value ==> !Boundary(s, j) && !EndAnchor(s, j))
    ensures m.None? ==>
              forall e :: (p < e <= |s| && (forall j :: p <= j < e ==> s[j] != '\n')) ==>
                !Boundary(s, e) && !EndAnchor(s, e)
  {
    if s[p] == '\n' then None
    else
      var e := Stop(s, p + 1);
      if Boundary(s, e) || EndAnchor(s, e) then Some(e) else None
  }

  /** The matches `re.finditer` yields from position `p` on. */
  function SplitFrom(s: string, p: nat): (parts: seq<string>)
    requires p <= |s|
    ensures forall i :: 0 <= i < |parts| ==> parts[i] != [] && '\n' !in parts[i]
    ensures forall i :: 0 <= i < |parts| ==> forall c :: c in parts[i] ==> c in s
    decreases |s| - p
  {
    if p == |s| then []
    else
      match MatchEnd(s, p)
      case Some(e) =>
        assert forall k :: p <= k < e ==> s[k] != '\n';
        assert forall c :: c in s[p..e] ==> c in s;
        [s[p..e]] + SplitFrom(s, e)
      case None => SplitFrom(s, p + 1)
  }

  /**
   * `camel_case_split(identifier)`: non-empty, newline-free fragments, which on
   * newline-free input cut the text exactly at its boundaries.
   */
  function CamelCaseSplit(s: string): (parts: seq<string>)
    ensures forall i :: 0 <= i < |parts| ==> parts[i] != [] && '\n' !in parts[i]
    ensures '\n' !in s ==> PartitionFrom(s, 0, parts)
  {
    if '\n' in s then SplitFrom(s, 0)
    else
      SplitFromIsPartition(s, 0);
      SplitFrom(s, 0)
  }

  /**
   * `parts` cuts `s[p..]` into non-empty pieces such that every cut is a
   * boundary and no boundary lies strictly inside a piece.
   */
  ghost predicate PartitionFrom(s: string, p: nat, parts: seq<string>)
    requires p <= |s|
    decreases |parts|
  {
    if parts == [] then p == |s|
    else
      var e := p + |parts[0]|;
      && parts[0] != []
      && e <= |s|
      && parts[0] == s[p..e]
      && (forall j :: p < j < e ==> !Boundary(s, j))
      && (e == |s| || Boundary(s, e))
      && PartitionFrom(s, e, parts[1..])
  }

  /** On newline-free input the matches are exactly the boundary partition. */
  lemma {:induction false} SplitFromIsPartition(s: string, p: nat)
    requires '\n' !in s && p <= |s|
    ensures PartitionFrom(s, p, SplitFrom(s, p))
    decreases |s| - p
  {
    if p < |s| {
      var e := Stop(s, p + 1);
      assert s[p] != '\n';
      assert e < |s| ==> s[e] != '\n';
      assert MatchEnd(s, p) == Some(e);
      var parts := SplitFrom(s, p);
      assert parts == [s[p..e]] + SplitFrom(s, e);
      assert parts[1..] == SplitFrom(s, e);
      SplitFromIsPartition(s, e);
    }
  }

  /** Concatenating the pieces of a partition of `s[p..]` gives `s[p..]` back. */
  lemma {:induction false} PartitionConcat(s: string, p: nat, parts: seq<string>)
    requires p <= |s| && PartitionFrom(s, p, parts)
    ensures Concat(parts) == s[p..]
    decreases |parts|
  {
    if parts != [] {
      var e := p + |parts[0]|;
      PartitionConcat(s, e, parts[1..]);
      assert s[p..] == s[p..e] + s[e..];
    }
  }

  /** There is only one boundary partition. */
  lemma {:induction false} PartitionUnique(s: string, p: nat, a: seq<string>, b: seq<string>)
    requires p <= |s| && PartitionFrom(s, p, a) && PartitionFrom(s, p, b)
    ensures a == b
    decreases |a|
  {
    if a != [] && b != [] {
      var ea, eb := p + |a[0]|, p + |b[0]|;
      assert ea < eb ==> !Boundary(s, ea);
      assert eb < ea ==> !Boundary(s, eb);
      assert ea == eb;
      PartitionUnique(s, ea, a[1..], b[1..]);
      assert a == [a[0]] + a[1..] && b == [b[0]] + b[1..];
    }
  }

  /**
   * For newline-free `s`, the fragments of `camel_case_split(s)` are non-empty,
   * concatenate back to `s`, are cut exactly at the boundaries and at nothing
   * else, and are the only such cutting.
   */
  lemma CamelCaseSplitSpec(s: string)
    requires '\n' !in s
    ensures PartitionFrom(s, 0, CamelCaseSplit(s))
    ensures Concat(CamelCaseSplit(s)) == s
    ensures forall parts :: PartitionFrom(s, 0, parts) ==> parts == CamelCaseSplit(s)
  {
    SplitFromIsPartition(s, 0);
    PartitionConcat(s, 0, CamelCaseSplit(s));
    forall parts | PartitionFrom(s, 0, parts)
      ensures parts == CamelCaseSplit(s)
    {
      PartitionUnique(s, 0, parts, CamelCaseSplit(s));
    }
  }

  /** Without a boundary (in particular without an upper-case letter) the whole string is one fragment. */
  lemma NoBoundaryOneFragment(s: string)
    requires '\n' !in s
    requires forall q :: !Boundary(s, q)
    ensures CamelCaseSplit(s) == if s == [] then [] else [s]
  {
    if s != [] {
      SplitFromIsPartition(s, 0);
      assert [s][1..] == [];
      assert PartitionFrom(s, |s|, []);
      assert PartitionFrom(s, 0, [s]);
      PartitionUnique(s, 0, [s], CamelCaseSplit(s));
    }
  }

  /** A string without upper-case letters has no boundary. */
  lemma NoUpperNoBoundary(s: string)
    requires NoUpper(s)
    ensures forall q :: !Boundary(s, q)
  {
    forall q | 0 < q < |s|
      ensures !Boundary(s, q)
    {
      assert s[q] in s;
    }
  }

  /** A newline-free string without upper-case letters comes back as one fragment equal to itself. */
  lemma SplitNoUpper(s: string)
    requires '\n' !in s && NoUpper(s)
    ensures CamelCaseSplit(s) == if s == [] then [] else [s]
  {
    NoUpperNoBoundary(s);
    NoBoundaryOneFragment(s);
  }

  /** A newline-free string splits into at most one fragment exactly when it has no boundary. */
  lemma OneFragmentIffNoBoundary(s: string)
    requires '\n' !in s
    ensures |CamelCaseSplit(s)| <= 1 <==> forall q :: !Boundary(s, q)
  {
    SplitFromIsPartition(s, 0);
    var parts := CamelCaseSplit(s);
    if |parts| == 1 {
      assert parts[0] == s[0..|s|];
      assert forall q :: 0 < q < |s| ==> !Boundary(s, q);
    }
    if forall q :: !Boundary(s, q) {
      NoBoundaryOneFragment(s);
    }
  }

  lemma SplitEmpty()
    ensures CamelCaseSplit("") == []
  {
  }

  lemma SplitGetWeather()
    ensures CamelCaseSplit("GetWeather") == ["Get", "Weather"]
  {
    assert Stop("GetWeather", 3) == 3;
    assert Stop("GetWeather", 1) == 3;
    assert MatchEnd("GetWeather", 0) == Some(3);
    assert "GetWeather"[0..3] == "Get";
    calc {
      CamelCaseSplit("GetWeather");
      SplitFrom("GetWeather", 0);
      ["Get"] + SplitFrom("GetWeather", 3);
      { SplitGetWeatherLast(); }
      ["Get"] + ["Weather"];
      ["Get", "Weather"];
    }
  }

  lemma SplitGetWeatherLast()
    ensures SplitFrom("GetWeather", 3) == ["Weather"]
  {
    assert Stop("GetWeather", 4) == 10;
    assert SplitFrom("GetWeather", 10) == [];
    assert "GetWeather"[3..10] == "Weather";
  }

  lemma SplitABCDef()
    ensures CamelCaseSplit("ABCDef") == ["ABC", "Def"]
  {
    assert Stop("ABCDef", 1) == 3;
    assert MatchEnd("ABCDef", 0) == Some(3);
    assert "ABCDef"[0..3] == "ABC";
    assert SplitFrom("ABCDef", 0) == ["ABC"] + SplitFrom("ABCDef", 3);
    assert Stop("ABCDef", 4) == 6;
    assert SplitFrom("ABCDef", 6) == [];
    assert "ABCDef"[3..6] == "Def";
  }

  lemma SplitTurnOnTheLightsTail()
    ensures SplitFrom("TurnOnTheLights", 6) == ["The", "Lights"]
  {
    assert Stop("TurnOnTheLights", 7) == 9;
    assert MatchEnd("TurnOnTheLights", 6) == Some(9);
    assert "TurnOnTheLights"[6..9] == "The";
    assert SplitFrom("TurnOnTheLights", 6) == ["The"] + SplitFrom("TurnOnTheLights", 9);
    SplitTurnOnTheLightsLast();
  }

  lemma SplitTurnOnTheLightsLast()
    ensures SplitFrom("TurnOnTheLights", 9) == ["Lights"]
  {
    assert Stop("TurnOnTheLights", 10) == 15;
    assert MatchEnd("TurnOnTheLights", 9) == Some(15);
    assert SplitFrom("TurnOnTheLights", 15) == [];
    assert "TurnOnTheLights"[9..15] == "Lights";
  }

  lemma SplitTurnOnTheLights()
    ensures CamelCaseSplit("TurnOnTheLights") == ["Turn", "On", "The", "Lights"]
  {
    calc {
      CamelCaseSplit("TurnOnTheLights");
      SplitFrom("TurnOnTheLights", 0);
      { SplitTurnOnTheLightsTurn(); }
      ["Turn"] + SplitFrom("TurnOnTheLights", 4);
      { SplitTurnOnTheLightsOn(); }
      ["Turn"] + ["On", "The", "Lights"];
      ["Turn", "On", "The", "Lights"];
    }
  }

  lemma SplitTurnOnTheLightsTurn()
    ensures SplitFrom("TurnOnTheLights", 0) == ["Turn"] + SplitFrom("TurnOnTheLights", 4)
  {
    assert Stop("TurnOnTheLights", 4) == 4;
    assert Stop("TurnOnTheLights", 3) == 4;
    assert Stop("TurnOnTheLights", 2) == 4;
    assert Stop("TurnOnTheLights", 1) == 4;
    assert MatchEnd("TurnOnTheLights", 0) == Some(4);
    assert "TurnOnTheLights"[0..4] == "Turn";
  }

  lemma SplitTurnOnTheLightsOn()
    ensures SplitFrom("TurnOnTheLights", 4) == ["On", "The", "Lights"]
  {
    assert Stop("TurnOnTheLights", 6) == 6;
    assert Stop("TurnOnTheLights", 5) == 6;
    assert MatchEnd("TurnOnTheLights", 4) == Some(6);
    assert "TurnOnTheLights"[4..6] == "On";
    calc {
      SplitFrom("TurnOnTheLights", 4);
      ["On"] + SplitFrom("TurnOnTheLights", 6);
      { SplitTurnOnTheLightsTail(); }
      ["On"] + ["The", "Lights"];
      ["On", "The", "Lights"];
    }
  }

  /** Text before a newline that does not end the string is not matched at all. */
  lemma SplitDropsTextBeforeNewline()
    ensures CamelCaseSplit("ab\ncd") == ["cd"]
  {
    assert Stop("ab\ncd", 1) == 2;
    assert SplitFrom("ab\ncd", 0) == SplitFrom("ab\ncd", 1);
    assert SplitFrom("ab\ncd", 1) == SplitFrom("ab\ncd", 2);
    assert SplitFrom("ab\ncd", 2) == SplitFrom("ab\ncd", 3);
    assert Stop("ab\ncd", 4) == 5;
    assert SplitFrom("ab\ncd", 5) == [];
    assert "ab\ncd"[3..5] == "cd";
  }

  /** `$` matches before a final newline, which is then left out. */
  lemma SplitDropsFinalNewline()
    ensures CamelCaseSplit("ab\n") == ["ab"]
  {
    assert Stop("ab\n", 1) == 2;
    assert MatchEnd("ab\n", 0) == Some(2);
    assert "ab\n"[0..2] == "ab";
    assert SplitFrom("ab\n", 0) == ["ab"] + SplitFrom("ab\n", 2);
    assert SplitFrom("ab\n", 2) == SplitFrom("ab\n", 3) == [];
  }

  /** What `tts_prononcable(text)` returns. */
  function TtsPhrase(text: string): (t: string)
    ensures NoPunctuation(t)
    ensures NoUpper(t)
    ensures '\n' !in t
  {
    var r := Spoken(text);
    var parts := CamelCaseSplit(r);
    JoinChars(parts, " ", r);
    JoinAvoids(parts, " ", '\n');
    LowerNoPunctuation(Join(parts, " "));
    LowerKeeps(Join(parts, " "), '\n');
    Lower(Join(parts, " "))
  }

  /** `tts_prononcable(text)`: the replacement loop, the camel split joined with spaces, then lower-casing. */
  method TtsPrononcable(text: string) returns (r: string)
    ensures r == TtsPhrase(text)
  {
    r := ReplacePunctuation(text);
    r := Join(CamelCaseSplit(r), " ");
    r := Lower(r);
  }

  /** Normalizing a normalized phrase changes nothing, whatever the input. */
  lemma TtsPhraseIdempotent(text: string)
    ensures TtsPhrase(TtsPhrase(text)) == TtsPhrase(text)
  {
    var f := TtsPhrase(text);
    assert Spoken(f) == f;
    NoUpperNoBoundary(f);
    NoBoundaryOneFragment(f);
  }

  lemma TtsGetWeather()
    ensures TtsPhrase("GetWeather") == "get weather"
  {
    calc {
      TtsPhrase("GetWeather");
      Lower(Join(CamelCaseSplit(Spoken("GetWeather")), " "));
      { SpokenGetWeather(); }
      Lower(Join(CamelCaseSplit("GetWeather"), " "));
      { SplitGetWeather(); }
      Lower(Join(["Get", "Weather"], " "));
      { assert Join(["Get", "Weather"], " ") == "Get Weather"; }
      Lower("Get Weather");
      "get weather";
    }
  }

  lemma TtsTurnOnTheLights()
    ensures TtsPhrase("TurnOnTheLights") == "turn on the lights"
  {
    calc {
      TtsPhrase("TurnOnTheLights");
      Lower(Join(CamelCaseSplit(Spoken("TurnOnTheLights")), " "));
      { SpokenTurnOnTheLights(); }
      Lower(Join(CamelCaseSplit("TurnOnTheLights"), " "));
      { SplitTurnOnTheLights(); }
      Lower(Join(["Turn", "On", "The", "Lights"], " "));
      { JoinTurnOnTheLights(); }
      Lower("Turn On The Lights");
      { LowerTurnOnTheLights(); }
      "turn on the lights";
    }
  }

  lemma JoinTurnOnTheLights()
    ensures Join(["Turn", "On", "The", "Lights"], " ") == "Turn On The Lights"
  {
    var parts := ["Turn", "On", "The", "Lights"];
    assert parts[1..] == ["On", "The", "Lights"] && parts[2..] == ["The", "Lights"] && parts[3..] == ["Lights"];
    calc {
      Join(parts, " ");
      "Turn" + " " + Join(["On", "The", "Lights"], " ");
      "Turn" + " " + ("On" + " " + Join(["The", "Lights"], " "));
      "Turn" + " " + ("On" + " " + ("The" + " " + Join(["Lights"], " ")));
      "Turn On The Lights";
    }
  }

  lemma LowerTurnOnTheLights()
    ensures Lower("Turn On The Lights") == "turn on the lights"
  {
  }
}
