/** The text sanitizer that runs before speech synthesis (`clean_text` in
    main.py): one pass over the characters, each replaced by a spoken phrase,
    kept, or dropped. */
module Sanitizer {
  import opened Seqs
  import opened CharClasses

  /** `ALLOWED_SPECIAL_CHARS`: punctuation kept literally. */
  const DefaultAllowed: set<char> := {'.', ',', '!', ':', ';', '-'}

  /** `SPOKEN_SPECIALS`: symbols read out as words. `!` is also allowed
      above; the spoken phrase wins. */
  const DefaultSpoken: map<char, string> := map[
    '!' := " exclamation mark ",
    '@' := " at ",
    '&' := " and ",
    '%' := " percent ",
    '$' := " dollar "
  ]

  /** Characters the second branch keeps: alphanumeric, whitespace, or allowed. */
  predicate Keepable(c: char, allowed: set<char>, cls: CharClass) {
    cls.isAlnum(c) || cls.isSpace(c) || c in allowed
  }

  /** Kept unchanged by the sanitizer: keepable and not a spoken-map key. */
  predicate PassesThrough(c: char, allowed: set<char>, spoken: map<char, string>, cls: CharClass) {
    c !in spoken && Keepable(c, allowed, cls)
  }

  /** The image of one input character; the spoken-map test comes first. */
  function CleanChar(c: char, allowed: set<char>, spoken: map<char, string>, cls: CharClass): string {
    if c in spoken then spoken[c]
    else if Keepable(c, allowed, cls) then [c]
    else []
  }

  /** The sanitized text: the images of the characters, in input order. */
  function Clean(text: string, allowed: set<char>, spoken: map<char, string>, cls: CharClass): string {
    if |text| == 0 then [] else CleanChar(text[0], allowed, spoken, cls) + Clean(text[1..], allowed, spoken, cls)
  }

  /** The loop of `clean_text`: collect the pieces in a list, then join them. */
  method CleanText(text: string, allowed: set<char>, spoken: map<char, string>, cls: CharClass)
    returns (r: string)
    ensures r == Clean(text, allowed, spoken, cls)
  {
    var result: seq<string> := [];
    var i := 0;
    while i < |text|
      invariant 0 <= i <= |text|
      invariant Flatten(result) == Clean(text[..i], allowed, spoken, cls)
    {
      var c := text[i];
      if c in spoken {
        FlattenAppend(result, spoken[c]);
        result := result + [spoken[c]];
      } else if cls.isAlnum(c) || cls.isSpace(c) || c in allowed {
        FlattenAppend(result, [c]);
        result := result + [[c]];
      }
      CleanStep(text, i, allowed, spoken, cls);
      i := i + 1;
    }
    assert text[..i] == text;
    r := Flatten(result);
  }

  /** Sanitizing one more character appends its image. */
  lemma CleanStep(text: string, i: nat, allowed: set<char>, spoken: map<char, string>, cls: CharClass)
    requires i < |text|
    ensures Clean(text[..i + 1], allowed, spoken, cls)
      == Clean(text[..i], allowed, spoken, cls) + CleanChar(text[i], allowed, spoken, cls)
  {
    var c := text[i];
    assert Clean([c], allowed, spoken, cls) == CleanChar(c, allowed, spoken, cls) + [];
    CleanAppend(text[..i], [c], allowed, spoken, cls);
    assert text[..i + 1] == text[..i] + [c];
  }

  /** Sanitizing is a homomorphism: the empty text maps to the empty text and
      a concatenation maps to the concatenation of the images. */
  lemma {:induction false} CleanAppend(a: string, b: string, allowed: set<char>, spoken: map<char, string>, cls: CharClass)
    ensures Clean([], allowed, spoken, cls) == []
    ensures Clean(a + b, allowed, spoken, cls) == Clean(a, allowed, spoken, cls) + Clean(b, allowed, spoken, cls)
  {
    if |a| == 0 {
      assert a + b == b;
    } else {
      assert (a + b)[0] == a[0];
      assert (a + b)[1..] == a[1..] + b;
      CleanAppend(a[1..], b, allowed, spoken, cls);
    }
  }

  /** The homomorphism over any number of pieces. */
  lemma {:induction false} CleanFlatten(pieces: seq<string>, allowed: set<char>, spoken: map<char, string>, cls: CharClass)
    ensures Clean(Flatten(pieces), allowed, spoken, cls)
         == Flatten(seq(|pieces|, i requires 0 <= i < |pieces| => Clean(pieces[i], allowed, spoken, cls)))
  {
    if |pieces| > 0 {
      CleanFlatten(pieces[1..], allowed, spoken, cls);
      CleanAppend(pieces[0], Flatten(pieces[1..]), allowed, spoken, cls);
      var images := seq(|pieces|, i requires 0 <= i < |pieces| => Clean(pieces[i], allowed, spoken, cls));
      assert images[1..] == seq(|pieces| - 1, i requires 0 <= i < |pieces| - 1 => Clean(pieces[1..][i], allowed, spoken, cls));
    }
  }

  /** Where an output character can come from: a character of the input that
      passes through, or a character of the phrase of a spoken-map key that
      occurs in the input. */
  predicate FromInput(x: char, text: string, allowed: set<char>, spoken: map<char, string>, cls: CharClass) {
    || (x in text && PassesThrough(x, allowed, spoken, cls))
    || (exists i :: 0 <= i < |text| && text[i] in spoken && x in spoken[text[i]])
  }

  /** Output alphabet: every output character passed through from the input
      or belongs to the phrase of a mapped input character. */
  lemma {:induction false} CleanAlphabet(text: string, allowed: set<char>, spoken: map<char, string>, cls: CharClass)
    ensures forall k :: 0 <= k < |Clean(text, allowed, spoken, cls)| ==>
      FromInput(Clean(text, allowed, spoken, cls)[k], text, allowed, spoken, cls)
  {
    if |text| > 0 {
      var head := CleanChar(text[0], allowed, spoken, cls);
      var tail := Clean(text[1..], allowed, spoken, cls);
      CleanAlphabet(text[1..], allowed, spoken, cls);
      forall k | 0 <= k < |head + tail|
        ensures FromInput((head + tail)[k], text, allowed, spoken, cls)
      {
        var x := (head + tail)[k];
        if k < |head| {
          if text[0] in spoken {
            assert x in spoken[text[0]];
          } else {
            assert x == text[0];
          }
        } else {
          assert x == tail[k - |head|];
          assert FromInput(x, text[1..], allowed, spoken, cls);
          if x in text[1..] && PassesThrough(x, allowed, spoken, cls) {
            assert x in text;
          } else {
            var i :| 0 <= i < |text[1..]| && text[1..][i] in spoken && x in spoken[text[1..][i]];
            assert text[i + 1] == text[1..][i];
          }
        }
      }
    }
  }

  /** Precedence: a spoken-map key never survives literally, even when it is
      also allowed, unless some phrase itself contains it. */
  lemma {:induction false} KeyNeverSurvives(c: char, text: string, allowed: set<char>, spoken: map<char, string>, cls: CharClass)
    requires c in spoken
    requires forall k :: k in spoken ==> c !in spoken[k]
    ensures c !in Clean(text, allowed, spoken, cls)
  {
    var r := Clean(text, allowed, spoken, cls);
    CleanAlphabet(text, allowed, spoken, cls);
    forall k | 0 <= k < |r|
      ensures r[k] != c
    {
      assert FromInput(r[k], text, allowed, spoken, cls);
    }
  }

  /** With the default tables `!` is allowed and yet always spoken: on its
      own it becomes " exclamation mark ", and no output ever contains it. */
  lemma {:induction false} BangAlwaysSpoken(text: string, cls: CharClass)
    ensures '!' in DefaultAllowed
    ensures Clean("!", DefaultAllowed, DefaultSpoken, cls) == " exclamation mark "
    ensures '!' !in Clean(text, DefaultAllowed, DefaultSpoken, cls)
  {
    assert Clean("!", DefaultAllowed, DefaultSpoken, cls) == CleanChar('!', DefaultAllowed, DefaultSpoken, cls) + [];
    forall k | k in DefaultSpoken
      ensures '!' !in DefaultSpoken[k]
    {
      assert k == '!' || k == '@' || k == '&' || k == '%' || k == '$';
    }
    KeyNeverSurvives('!', text, DefaultAllowed, DefaultSpoken, cls);
  }

  /** For a text without spoken-map keys the output is never longer than the
      input, and strictly shorter once some character is dropped. */
  lemma {:induction false} CleanShrinks(text: string, allowed: set<char>, spoken: map<char, string>, cls: CharClass)
    requires forall i :: 0 <= i < |text| ==> text[i] !in spoken
    ensures |Clean(text, allowed, spoken, cls)| <= |text|
    ensures (exists i :: 0 <= i < |text| && !Keepable(text[i], allowed, cls)) ==>
      |Clean(text, allowed, spoken, cls)| < |text|
  {
    if |text| > 0 {
      CleanShrinks(text[1..], allowed, spoken, cls);
      if exists i :: 0 <= i < |text| && !Keepable(text[i], allowed, cls) {
        var i :| 0 <= i < |text| && !Keepable(text[i], allowed, cls);
        if i > 0 {
          assert text[1..][i - 1] == text[i];
        }
      }
    }
  }

  /** Pass-through: a text whose every character passes through is its own
      image. */
  lemma {:induction false} CleanKeepsPassingText(text: string, allowed: set<char>, spoken: map<char, string>, cls: CharClass)
    requires forall i :: 0 <= i < |text| ==> PassesThrough(text[i], allowed, spoken, cls)
    ensures Clean(text, allowed, spoken, cls) == text
  {
    if |text| > 0 {
      CleanKeepsPassingText(text[1..], allowed, spoken, cls);
      assert [text[0]] + text[1..] == text;
    }
  }

  /** For a text without spoken-map keys, sanitizing changes nothing exactly
      when every character is keepable. */
  lemma CleanFixedIff(text: string, allowed: set<char>, spoken: map<char, string>, cls: CharClass)
    requires forall i :: 0 <= i < |text| ==> text[i] !in spoken
    ensures Clean(text, allowed, spoken, cls) == text <==>
      forall i :: 0 <= i < |text| ==> Keepable(text[i], allowed, cls)
  {
    CleanShrinks(text, allowed, spoken, cls);
    if forall i :: 0 <= i < |text| ==> Keepable(text[i], allowed, cls) {
      CleanKeepsPassingText(text, allowed, spoken, cls);
    }
  }

  /** Dropping: a text with no key and no keepable character vanishes. */
  lemma {:induction false} CleanDropsUnkept(text: string, allowed: set<char>, spoken: map<char, string>, cls: CharClass)
    requires forall i :: 0 <= i < |text| ==> text[i] !in spoken && !Keepable(text[i], allowed, cls)
    ensures Clean(text, allowed, spoken, cls) == []
  {
    if |text| > 0 {
      CleanDropsUnkept(text[1..], allowed, spoken, cls);
    }
  }

  /** Every character of every phrase passes through a second sanitizing pass. */
  ghost predicate PhrasesStable(allowed: set<char>, spoken: map<char, string>, cls: CharClass) {
    forall c, x :: c in spoken && x in spoken[c] ==> PassesThrough(x, allowed, spoken, cls)
  }

  /** Idempotence: when the phrases are stable, sanitizing twice is
      sanitizing once. */
  lemma CleanIdempotent(text: string, allowed: set<char>, spoken: map<char, string>, cls: CharClass)
    requires PhrasesStable(allowed, spoken, cls)
    ensures Clean(Clean(text, allowed, spoken, cls), allowed, spoken, cls) == Clean(text, allowed, spoken, cls)
  {
    var r := Clean(text, allowed, spoken, cls);
    CleanAlphabet(text, allowed, spoken, cls);
    forall k | 0 <= k < |r|
      ensures PassesThrough(r[k], allowed, spoken, cls)
    {
      assert FromInput(r[k], text, allowed, spoken, cls);
    }
    CleanKeepsPassingText(r, allowed, spoken, cls);
  }

  /** The default phrases hold only lower-case ASCII letters and spaces, so
      with a classifier that agrees with Python on ASCII they are stable. */
  lemma DefaultPhrasesStable(cls: CharClass)
    requires PythonOnAscii(cls)
    ensures PhrasesStable(DefaultAllowed, DefaultSpoken, cls)
  {
    forall c, x | c in DefaultSpoken && x in DefaultSpoken[c]
      ensures PassesThrough(x, DefaultAllowed, DefaultSpoken, cls)
    {
      assert c == '!' || c == '@' || c == '&' || c == '%' || c == '$';
      assert 'a' <= x <= 'z' || x == ' ';
      assert x < '\U{80}';
      assert cls.isAlnum(x) == IsAsciiAlnum(x);
      assert cls.isSpace(x) == IsAsciiSpace(x);
    }
  }

  /** With the default tables, `clean_text` is idempotent. */
  lemma DefaultCleanIdempotent(text: string, cls: CharClass)
    requires PythonOnAscii(cls)
    ensures Clean(Clean(text, DefaultAllowed, DefaultSpoken, cls), DefaultAllowed, DefaultSpoken, cls)
         == Clean(text, DefaultAllowed, DefaultSpoken, cls)
  {
    DefaultPhrasesStable(cls);
    CleanIdempotent(text, DefaultAllowed, DefaultSpoken, cls);
  }
}
