/** An example request to the `/tts/` endpoint, worked through the model. */
module Scenario {
  import opened CharClasses
  import opened Sanitizer

  const ExampleText: string := "Hello! Price: $5 & 10% off."

  /** ASCII letters, digits, spaces, `.` and `:` pass through the default
      sanitizer unchanged. */
  lemma PlainPiece(piece: string, cls: CharClass)
    requires PythonOnAscii(cls)
    requires forall i :: 0 <= i < |piece| ==>
      IsAsciiAlnum(piece[i]) || piece[i] == ' ' || piece[i] == '.' || piece[i] == ':'
    ensures Clean(piece, DefaultAllowed, DefaultSpoken, cls) == piece
  {
    forall i | 0 <= i < |piece|
      ensures PassesThrough(piece[i], DefaultAllowed, DefaultSpoken, cls)
    {
      assert piece[i] < '\U{80}';
    }
    CleanKeepsPassingText(piece, DefaultAllowed, DefaultSpoken, cls);
  }

  /** A spoken-map key on its own becomes its phrase. */
  lemma SymbolPiece(c: char, cls: CharClass)
    requires c in DefaultSpoken
    ensures Clean([c], DefaultAllowed, DefaultSpoken, cls) == DefaultSpoken[c]
  {
    assert Clean([c], DefaultAllowed, DefaultSpoken, cls) == DefaultSpoken[c] + [];
  }

  /** The pieces of the example that pass through unchanged. */
  lemma ExamplePlainPieces(cls: CharClass)
    requires PythonOnAscii(cls)
    ensures Clean("Hello", DefaultAllowed, DefaultSpoken, cls) == "Hello"
    ensures Clean(" Price: ", DefaultAllowed, DefaultSpoken, cls) == " Price: "
    ensures Clean("5 ", DefaultAllowed, DefaultSpoken, cls) == "5 "
    ensures Clean(" 10", DefaultAllowed, DefaultSpoken, cls) == " 10"
    ensures Clean(" off.", DefaultAllowed, DefaultSpoken, cls) == " off."
  {
    PlainPiece("Hello", cls);
    PlainPiece(" Price: ", cls);
    PlainPiece("5 ", cls);
    PlainPiece(" 10", cls);
    PlainPiece(" off.", cls);
  }

  /** The symbols of the example, each replaced by its phrase. */
  lemma ExampleSymbolPieces(cls: CharClass)
    ensures Clean("!", DefaultAllowed, DefaultSpoken, cls) == " exclamation mark "
    ensures Clean("$", DefaultAllowed, DefaultSpoken, cls) == " dollar "
    ensures Clean("&", DefaultAllowed, DefaultSpoken, cls) == " and "
    ensures Clean("%", DefaultAllowed, DefaultSpoken, cls) == " percent "
  {
    SymbolPiece('!', cls);
    SymbolPiece('$', cls);
    SymbolPiece('&', cls);
    SymbolPiece('%', cls);
  }

  /** Sanitizing the example replaces `!`, `$`, `&` and `%` by their phrases
      in place (so "$5" reads " dollar 5", not "5 dollar") and keeps
      everything else. */
  lemma ExampleCleaned(cls: CharClass)
    requires PythonOnAscii(cls)
    ensures Clean(ExampleText, DefaultAllowed, DefaultSpoken, cls)
         == "Hello" + " exclamation mark " + " Price: " + " dollar " + "5 " + " and " + " 10" + " percent " + " off."
  {
    var a := DefaultAllowed;
    var m := DefaultSpoken;
    var p1 := "Hello";
    var p2 := p1 + "!";
    var p3 := p2 + " Price: ";
    var p4 := p3 + "$";
    var p5 := p4 + "5 ";
    var p6 := p5 + "&";
    var p7 := p6 + " 10";
    var p8 := p7 + "%";
    var p9 := p8 + " off.";
    assert ExampleText == p9;
    ExamplePlainPieces(cls);
    ExampleSymbolPieces(cls);
    CleanAppend(p1, "!", a, m, cls);
    CleanAppend(p2, " Price: ", a, m, cls);
    CleanAppend(p3, "$", a, m, cls);
    CleanAppend(p4, "5 ", a, m, cls);
    CleanAppend(p5, "&", a, m, cls);
    CleanAppend(p6, " 10", a, m, cls);
    CleanAppend(p7, "%", a, m, cls);
    CleanAppend(p8, " off.", a, m, cls);
  }
}
