/** Lines from the parser's test cases, read through the recogniser. */
module ParserExamples {
  import opened Wrappers
  import opened Strings
  import opened Datalog

  lemma SpacedName()
    ensures WordPrefixLength("R( a , b )") == 1
  {
    assert "R( a , b )"[1..] == "( a , b )";
    assert !IsWordChar('(');
  }

  lemma SpacedParen()
    ensures LStrip("( a , b )") == "( a , b )"
  {
    assert !IsSpace('(');
  }

  lemma SpacedGroup()
    ensures LStrip(" a , b ") == "a , b "
  {
    assert " a , b "[1..] == "a , b ";
    assert IsSpace(' ') && !IsSpace('a');
  }

  lemma SpacedMatch()
    ensures MatchRelation("R( a , b )") == Some(("R", "a , b "))
  {
    var line := "R( a , b )";
    SpacedName();
    SpacedParen();
    SpacedGroup();
    assert line[1..] == "( a , b )";
    assert line[..1] == "R";
    assert "( a , b )"[1..8] == " a , b ";
    assert ')' !in " a , b ";
  }

  lemma SpacedSplit()
    ensures Split("a , b ", ',') == ["a ", " b "]
  {
    assert IndexOf("a , b ", ',') == 2;
    assert "a , b "[..2] == "a ";
    assert "a , b "[3..] == " b ";
    assert IndexOf(" b ", ',') == 3;
    assert Split(" b ", ',') == [" b "];
  }

  lemma StripFirst()
    ensures Strip("a ") == "a"
  {
    assert LStrip("a ") == "a " by { assert !IsSpace('a'); }
    assert RStrip("a ") == "a" by {
      assert "a "[..1] == "a";
      assert RStrip("a") == "a" by { assert !IsSpace('a'); }
    }
  }

  lemma StripSecond()
    ensures Strip(" b ") == "b"
  {
    assert " b "[1..] == "b ";
    assert !IsSpace('b');
    assert "b "[..1] == "b";
  }

  lemma Pair(s: seq<string>, a: string, b: string)
    requires |s| == 2 && s[0] == a && s[1] == b
    ensures s == [a, b]
  {
  }

  lemma SpacedArgs()
    ensures SplitArguments("a , b ") == ["a", "b"]
  {
    SpacedSplit();
    StripFirst();
    StripSecond();
    var args := SplitArguments("a , b ");
    assert |args| == 2;
    assert args[0] == "a" && args[1] == "b";
    Pair(args, "a", "b");
  }

  /** R( a , b ) gives the relation R with arguments a and b. */
  lemma SpacedRelation()
    ensures ParseRelation("R( a , b )") == Some(Relation("R", ["a", "b"]))
  {
    SpacedMatch();
    SpacedArgs();
  }

  /** R() is rejected: the group needs at least one character. */
  lemma EmptyParens()
    ensures ParseRelation("R()") == None
  {
    assert WordPrefixLength("R()") == 1;
  }

  /** A name may not start with a digit. */
  lemma LeadingDigit()
    ensures ParseRelation("123R(a, b)") == None
  {
    assert IsWordChar('1') && !IsLetter('1');
  }

  /** A name may not hold "@". */
  lemma AtInName()
    ensures ParseRelation("R@(a, b)") == None
  {
    assert WordPrefixLength("R@(a, b)") == 1 by {
      assert "R@(a, b)"[1..] == "@(a, b)";
      assert !IsWordChar('@');
    }
    assert LStrip("@(a, b)") == "@(a, b)" by { assert !IsSpace('@'); }
  }

  /** A missing closing parenthesis is rejected. */
  lemma MissingParen()
    ensures ParseRelation("R(a, b") == None
  {
    assert WordPrefixLength("R(a, b") == 1 by {
      assert "R(a, b"[1..] == "(a, b";
      assert !IsWordChar('(');
    }
    assert LStrip("(a, b") == "(a, b" by { assert !IsSpace('('); }
  }

  /** A line must start with the relation's name. */
  lemma NoName()
    ensures ParseRelation("(a, b)") == None
  {
    assert !IsWordChar('(');
  }

  lemma BlankName()
    ensures WordPrefixLength("R( )") == 1
  {
    assert "R( )"[1..] == "( )";
    assert !IsWordChar('(');
  }

  lemma BlankInner()
    ensures LStrip("( )") == "( )" && LStrip(" ") == []
  {
    assert !IsSpace('(');
    assert " "[1..] == [];
  }

  lemma BlankMatch()
    ensures MatchRelation("R( )") == Some(("R", " "))
  {
    BlankName();
    BlankInner();
    assert "R( )"[1..] == "( )" && "R( )"[..1] == "R";
    assert "( )"[1..2] == " ";
  }

  lemma BlankSplit()
    ensures SplitArguments(" ") == [""]
  {
    assert Split(" ", ',') == [" "];
    assert Strip(" ") == [] by { assert AllSpace(" "); }
    var args := SplitArguments(" ");
    assert |args| == 1 && args[0] == "";
  }

  /** Whitespace alone between the parentheses is accepted: the group is
      the last whitespace character, and the one argument strips to "". */
  lemma BlankArguments()
    ensures ParseRelation("R( )") == Some(Relation("R", [""]))
  {
    BlankMatch();
    BlankSplit();
  }
}
