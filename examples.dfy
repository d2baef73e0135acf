/** Concrete inputs of the matcher language and what the model says of
    them, including the inputs on which printing and parsing do not
    round-trip. */
module MatcherExamples {
  import opened Wrappers
  import opened Matchers
  import opened ScannerProperties
  import opened RoundTrip

  /** The empty source is the single empty text (the final flush). */
  lemma ParseEmpty()
    ensures Parsed("") == Success(Matcher([Text("")]))
  {
    assert [] + [Text("")] == [Text("")];
  }

  /** Text before a variable ends up after it: `$$` does not flush. */
  lemma ParseVariableInsideText()
    ensures Parsed("ab$$x cd") == Success(Matcher([Variable("x"), Text("ab cd")]))
  {
    var s := "ab$$x cd";
    assert "" + s[0..2] == "ab";
    ParseTextRun(s, 0, 2, "", "ab", []);
    assert s[2..5] == "$$" + "x";
    VariableStep(s, 2, "x", "ab", []);
    assert [] + [Variable("x")] == [Variable("x")];
    assert "ab" + s[5..8] == "ab cd";
    ParseTextRun(s, 5, 3, "ab", "ab cd", [Variable("x")]);
    assert [Variable("x")] + [Text("ab cd")] == [Variable("x"), Text("ab cd")];
  }

  /** `x` reads back whole as a block body. */
  lemma ClosesPlain()
    ensures Closes("x")
  {
    var t := "x" + "]]";
    assert ScanBlock(t, 1, 0) == Block("", 3, true);
    assert ['x'] + "" == "x";
  }

  /** `[[` flushes the pending text even when it is empty. */
  lemma ParseLoneRegex()
    ensures Parsed("[[x]]") == Success(Matcher([Text(""), Regex("x"), Text("")]))
  {
    ClosesPlain();
    assert FirstColon("x") == None by {
      assert "x"[1..] == "";
    }
    ParseLoneBlock("x");
    assert "[[" + "x" + "]]" == "[[x]]";
  }

  /** `$$` inside a block body is part of the pattern and does not fail. */
  lemma ParseMarkerInBlock()
    ensures Parsed("[[$$]]") == Success(Matcher([Text(""), Regex("$$"), Text("")]))
  {
    var t := "$$" + "]]";
    assert ScanBlock(t, 2, 0) == Block("", 4, true);
    assert ScanBlock(t, 1, 0) == Block("$", 4, true);
    assert ['$'] + "$" == "$$";
    assert FirstColon("$$") == None by {
      assert "$$"[1..] == "$" && "$"[1..] == "";
    }
    ParseLoneBlock("$$");
    assert "[[" + "$$" + "]]" == "[[$$]]";
  }

  /** The inner `]` of `a[b]c` is met at depth one and does not close. */
  lemma ClosesNested()
    ensures Closes("a[b]c")
  {
    var t := "a[b]c" + "]]";
    assert ScanBlock(t, 5, 0) == Block("", 7, true);
    assert ScanBlock(t, 4, 0) == Block("c", 7, true);
    assert ScanBlock(t, 3, 1) == Block("]c", 7, true);
    assert ScanBlock(t, 2, 1) == Block("b]c", 7, true);
    assert ScanBlock(t, 1, 0) == Block("[b]c", 7, true);
  }

  /** `a[b]c` holds no colon, so its block is anonymous. */
  lemma NoColonNested()
    ensures FirstColon("a[b]c") == None
  {
    assert FirstColon("") == None;
    assert "c"[1..] == "" && "]c"[1..] == "c" && "b]c"[1..] == "]c";
    assert "[b]c"[1..] == "b]c" && "a[b]c"[1..] == "[b]c";
  }

  /** Brackets inside a block nest: the inner `]` does not close it. */
  lemma ParseNestedBrackets()
    ensures Parsed("[[a[b]c]]") == Success(Matcher([Text(""), Regex("a[b]c"), Text("")]))
  {
    ClosesNested();
    NoColonNested();
    ParseLoneBlock("a[b]c");
    assert "[[" + "a[b]c" + "]]" == "[[a[b]c]]";
  }

  /** `n:a:b` reads back whole as a block body: no bracket moves the depth. */
  lemma ClosesTwoColons()
    ensures Closes("n:a:b")
  {
    var t := "n:a:b" + "]]";
    assert ScanBlock(t, 5, 0) == Block("", 7, true);
    assert ScanBlock(t, 4, 0) == Block("b", 7, true);
    assert ScanBlock(t, 3, 0) == Block(":b", 7, true);
    assert ScanBlock(t, 2, 0) == Block("a:b", 7, true);
    assert ScanBlock(t, 1, 0) == Block(":a:b", 7, true);
  }

  /** `n:a:b` splits at its first colon into the name `n` and the pattern
      `a:b`. */
  lemma SplitTwoColons()
    ensures SplitBody("n:a:b") == NamedRegex("n", "a:b")
  {
    assert FirstColon("n:a:b") == Some(1) by {
      assert "n:a:b"[1..] == ":a:b";
    }
    assert "n:a:b"[..1] == "n" && "n:a:b"[2..] == "a:b";
  }

  /** Only the first colon splits a named block; the pattern keeps the
      rest. */
  lemma ParseNamedRegex()
    ensures Parsed("[[n:a:b]]") == Success(Matcher([Text(""), NamedRegex("n", "a:b"), Text("")]))
  {
    ClosesTwoColons();
    SplitTwoColons();
    ParseLoneBlock("n:a:b");
    assert "[[" + "n:a:b" + "]]" == "[[n:a:b]]";
  }

  /** `(?:a)` reads back whole as a block body: parentheses do not move the
      depth. */
  lemma ClosesGroup()
    ensures Closes("(?:a)")
  {
    var t := "(?:a)" + "]]";
    assert ScanBlock(t, 5, 0) == Block("", 7, true);
    assert ScanBlock(t, 4, 0) == Block(")", 7, true);
    assert ScanBlock(t, 3, 0) == Block("a)", 7, true);
    assert ScanBlock(t, 2, 0) == Block(":a)", 7, true);
    assert ScanBlock(t, 1, 0) == Block("?:a)", 7, true);
  }

  /** The text `(?` before the colon of `(?:a)` is not an identifier, so
      the body stays whole. */
  lemma SplitGroup()
    ensures SplitBody("(?:a)") == Regex("(?:a)")
  {
    assert FirstColon("(?:a)") == Some(2) by {
      assert "?:a)"[1..] == ":a)" && "(?:a)"[1..] == "?:a)";
    }
    assert !IsIdentifierStart("(?:a)"[..2][0]);
  }

  /** A prefix that is not an identifier leaves the block anonymous, colon
      and all. */
  lemma ParseNonIdentifierPrefix()
    ensures Parsed("[[(?:a)]]") == Success(Matcher([Text(""), Regex("(?:a)"), Text("")]))
  {
    ClosesGroup();
    SplitGroup();
    ParseLoneBlock("(?:a)");
    assert "[[" + "(?:a)" + "]]" == "[[(?:a)]]";
  }

  /** A block left open takes the rest of the input, without an error. */
  lemma ParseUnterminatedBlock()
    ensures Parsed("[[abc") == Success(Matcher([Text(""), Regex("abc"), Text("")]))
  {
    var s := "[[abc";
    assert ScanBlock(s, 2, 0) == Block("abc", 5, false) by {
      assert ScanBlock(s, 4, 0) == Block("c", 5, false);
      assert ScanBlock(s, 3, 0) == Block("bc", 5, false);
    }
    assert FirstColon("abc") == None by {
      assert "abc"[1..] == "bc" && "bc"[1..] == "c" && "c"[1..] == "";
    }
    var cs := [Text(""), Regex("abc")];
    assert [] + cs == cs;
    assert ParseFrom(s, 0, "", []) == ParseFrom(s, 5, "", cs);
    assert cs + [Text("")] == [Text(""), Regex("abc"), Text("")];
  }

  /** `$$` with no name after it is the empty-name failure, at the marker. */
  lemma ParseEmptyName()
    ensures Parsed("$$") == Failure(EmptyVariableName(0))
    ensures Parsed("a$$ b") == Failure(EmptyVariableName(1))
  {
    var s := "a$$ b";
    assert NameEnd(s, 3) == 3;
    assert ParseFrom(s, 0, "", []) == ParseFrom(s, 1, "a", []);
  }

  // ---------------------------------------------------------------------
  // Where printing then parsing does not give back the same matcher

  /** A text before a variable is printed after it, where the name then
      swallows it. */
  lemma VariableRunsIntoText()
    ensures Parsed("ab$$x") == Success(Matcher([Variable("x"), Text("ab")]))
    ensures Display(Matcher([Variable("x"), Text("ab")])) == "$$xab"
    ensures Parsed("$$xab") == Success(Matcher([Variable("xab"), Text("")]))
  {
    var s := "ab$$x";
    assert "" + s[0..2] == "ab";
    ParseTextRun(s, 0, 2, "", "ab", []);
    assert s[2..5] == "$$" + "x";
    VariableStep(s, 2, "x", "ab", []);
    assert [] + [Variable("x")] == [Variable("x")];
    assert [Variable("x")] + [Text("ab")] == [Variable("x"), Text("ab")];
    var u := "$$xab";
    assert u[0..5] == "$$" + "xab";
    VariableStep(u, 0, "xab", "", []);
    assert [] + [Variable("xab")] == [Variable("xab")];
    assert [Variable("xab")] + [Text("")] == [Variable("xab"), Text("")];
    assert Print([Variable("x"), Text("ab")]) == "$$x" + "ab";
  }

  /** `[[a[` leaves both the block and a bracket in it open. */
  lemma ParseOpenBracket()
    ensures Parsed("[[a[") == Success(Matcher([Text(""), Regex("a["), Text("")]))
  {
    var s := "[[a[";
    assert ScanBlock(s, 2, 0) == Block("a[", 4, false) by {
      assert ScanBlock(s, 3, 0) == Block("[", 4, false);
    }
    assert FirstColon("a[") == None by {
      assert "a["[1..] == "[" && "["[1..] == "";
    }
    var cs := [Text(""), Regex("a[")];
    assert [] + cs == cs;
    assert ParseFrom(s, 0, "", []) == ParseFrom(s, 4, "", cs);
    assert cs + [Text("")] == [Text(""), Regex("a["), Text("")];
  }

  /** In `[[a[]]` the first `]` closes the inner bracket, so the final `]]`
      is not met at depth zero and the block stays open. */
  lemma ParseOpenBracketPrinted()
    ensures Parsed("[[a[]]") == Success(Matcher([Text(""), Regex("a[]]"), Text("")]))
  {
    var u := "[[a[]]";
    assert ScanBlock(u, 2, 0) == Block("a[]]", 6, false) by {
      assert ScanBlock(u, 5, 0) == Block("]", 6, false);
      assert ScanBlock(u, 4, 1) == Block("]]", 6, false);
      assert ScanBlock(u, 3, 0) == Block("[]]", 6, false);
    }
    assert FirstColon("a[]]") == None by {
      assert "a[]]"[1..] == "[]]" && "[]]"[1..] == "]]" && "]]"[1..] == "]" && "]"[1..] == "";
    }
    var ds := [Text(""), Regex("a[]]")];
    assert [] + ds == ds;
    assert ParseFrom(u, 0, "", []) == ParseFrom(u, 6, "", ds);
    assert ds + [Text("")] == [Text(""), Regex("a[]]"), Text("")];
  }

  /** An open block whose body leaves a bracket open is printed with a `]]`
      that the open bracket then takes into the body (see
      `ParseOpenBracketPrinted`): the parse of the print is not the parse. */
  lemma OpenBracketTakesClose()
    ensures Display(Matcher([Text(""), Regex("a["), Text("")])) == "[[a[]]"
    ensures Matcher([Text(""), Regex("a[]]"), Text("")]) != Matcher([Text(""), Regex("a["), Text("")])
  {
    assert Print([Text(""), Regex("a["), Text("")]) == "" + "[[a[]]" + "";
    assert Regex("a[]]").pattern != Regex("a[").pattern;
  }

  /** `[[]x]` reads back whole as a block body: its brackets balance before
      the closing `]]`. */
  lemma ClosesInnerOpener()
    ensures Closes("[[]x]")
  {
    var t := "[[]x]" + "]]";
    assert ScanBlock(t, 5, 0) == Block("", 7, true);
    assert ScanBlock(t, 4, 1) == Block("]", 7, true);
    assert ScanBlock(t, 3, 1) == Block("x]", 7, true);
    assert ScanBlock(t, 2, 2) == Block("]x]", 7, true);
    assert ScanBlock(t, 1, 1) == Block("[]x]", 7, true);
  }

  /** `[[[[]x]]]` is one block with body `[[]x]`. */
  lemma ParseInnerOpener()
    ensures Parsed("[[[[]x]]]") == Success(Matcher([Text(""), Regex("[[]x]"), Text("")]))
  {
    ClosesInnerOpener();
    assert FirstColon("[[]x]") == None by {
      assert "[[]x]"[1..] == "[]x]" && "[]x]"[1..] == "]x]" && "]x]"[1..] == "x]";
      assert "x]"[1..] == "]" && "]"[1..] == "";
    }
    ParseLoneBlock("[[]x]");
    assert "[[" + "[[]x]" + "]]" == "[[[[]x]]]";
  }

  /** The `[[` at index 2 of `[[[[]x]]]`, inside the body, scans as a block
      that never closes. */
  lemma InnerOpenerUnclosed()
    ensures OpensUnclosed("[[[[]x]]]", 2)
  {
    var s := "[[[[]x]]]";
    assert ScanBlock(s, 8, -3) == Block("]", 9, false);
    assert ScanBlock(s, 7, -2) == Block("]]", 9, false);
    assert ScanBlock(s, 6, -1) == Block("]]]", 9, false);
    assert ScanBlock(s, 5, -1) == Block("x]]]", 9, false);
  }

  /** `[[[[]x]]]` prints back unchanged. */
  lemma InnerOpenerPrinted()
    ensures Display(Matcher([Text(""), Regex("[[]x]"), Text("")])) == "[[[[]x]]]"
  {
    assert Print([Text(""), Regex("[[]x]"), Text("")]) == "" + "[[[[]x]]]" + "";
  }

  /** `[[[[]x]]]` prints back unchanged, although its inner `[[`, which lies
      in a block body and is no opener, scans as a block that never closes:
      the premise of `PrintParsed` holds and the print is still the input. */
  lemma InnerOpenerRoundTrips()
    ensures Display(Parsed("[[[[]x]]]").value) == "[[[[]x]]]"
    ensures OpenBlockFrom("[[[[]x]]]", 0)
  {
    ParseInnerOpener();
    InnerOpenerPrinted();
    InnerOpenerUnclosed();
  }
}
