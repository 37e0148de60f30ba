/** Two lines on which the extractor does something a reader might not expect: a name
    pattern that runs into the parenthesised address, and a company keyword found inside a
    word (src/index.ts:3787-3797, 3815-3818). */
module ContactCases {
  import opened Wrappers
  import opened Text
  import opened Patterns
  import opened Contacts

  // ---------------------------------------------------------------------------------------
  // "Jane Smith (jane@example.com)": the leading-text name pattern wins over the
  // parenthesis pattern, and stops only at the `@`.

  const ParenLine := "Jane Smith (jane@example.com)"

  lemma ParenLineSlice()
    ensures ParenLine[..16] == "Jane Smith (jane"
  {
  }

  /** The leading run without `<` or `@` stops at the `@`. */
  lemma ParenLineRun()
    ensures RunLength(ParenLine, 0, NotAngleOrAt) == 16
  {
    RunLengthExact(ParenLine, 0, NotAngleOrAt, 16);
  }

  /** The name is the text before the `@`, parenthesis included. */
  lemma ParenLineName()
    ensures NameText(ParenLine) == Some("Jane Smith (jane")
  {
    ParenLineRun();
    assert NameHead(ParenLine) == Some(Span(0, 16));
    ParenLineSlice();
  }

  /** The captured name is the three words joined by spaces. */
  lemma ParenNameWords()
    ensures Join(["Jane", "Smith", "(jane"], " ") == "Jane Smith (jane"
    ensures Join(["Jane", "Smith", "(jane"][1..], " ") == "Smith (jane"
  {
    var words := ["Jane", "Smith", "(jane"];
    assert Join(words[2..], " ") == "(jane";
    assert Join(words[1..], " ") == "Smith (jane";
  }

  /** The captured name has no white space to trim. */
  lemma ParenNameTrimmed()
    ensures Trim("Jane Smith (jane") == "Jane Smith (jane"
  {
    var t := "Jane Smith (jane";
    assert TrimStart(t) == t;
    assert TrimEnd(t) == t;
  }

  /** Its parts: the first word, and the rest joined by a space. */
  lemma ParenNameParts()
    ensures NameParts("Jane Smith (jane") == ("Jane", "Smith (jane")
  {
    var words := ["Jane", "Smith", "(jane"];
    ParenNameTrimmed();
    ParenNameSplit();
    ParenNameWords();
    NamePartsOfWords("Jane Smith (jane", words);
  }

  /** Splitting the captured name on white space gives the three words back. */
  lemma ParenNameSplit()
    ensures SplitSpaces("Jane Smith (jane") == ["Jane", "Smith", "(jane"]
  {
    var words := ["Jane", "Smith", "(jane"];
    ParenNameWords();
    forall k, j | 0 <= k < |words| && 0 <= j < |words[k]| ensures !IsSpace(words[k][j]) {
      assert words[k][j] in "JaneSmith(j";
    }
    SplitSpacesOfJoin(words);
  }

  /** FIRSTNAME is "Jane" and LASTNAME is "Smith (jane". */
  lemma ParenLineNames()
    ensures FirstNameField(ParenLine) == Some("Jane")
    ensures LastNameField(ParenLine) == Some("Smith (jane")
  {
    ParenLineName();
    ParenNameParts();
  }

  // ---------------------------------------------------------------------------------------
  // "Pat Smith <p@x.co>": the company keyword `at` is found inside "Pat".

  const PatLine := "Pat Smith <p@x.co>"

  lemma PatLineNoMatchAtStart()
    ensures CompanyAt(PatLine, 0).None?
  {
    assert !KeywordAt(PatLine, 0, 2) && !KeywordAt(PatLine, 0, 1);
  }

  lemma PatLineSpaces()
    ensures RunLength(PatLine, 3, IsSpace) == 1
  {
    RunLengthExact(PatLine, 3, IsSpace, 4);
  }

  lemma PatLineGroupRun()
    ensures RunLength(PatLine, 4, NotStop) == 6
  {
    RunLengthExact(PatLine, 4, NotStop, 10);
  }

  lemma PatLineMatch()
    ensures CompanyAt(PatLine, 1) == Some(Span(4, 10))
  {
    assert KeywordAt(PatLine, 1, 2);
    PatLineSpaces();
    PatLineGroupRun();
    assert SpacesThenName(PatLine, 3) == Some(Span(4, 10));
  }

  lemma PatLineSearch()
    ensures Search(CompanyAt, PatLine, 0) == Some(1)
  {
    PatLineNoMatchAtStart();
    PatLineMatch();
    assert Search(CompanyAt, PatLine, 1) == Some(1);
  }

  lemma PatLineSlice()
    ensures PatLine[4..10] == "Smith "
  {
  }

  lemma PatLineGroup()
    ensures CompanyText(PatLine) == Some("Smith ")
  {
    PatLineSearch();
    PatLineMatch();
    PatLineSlice();
    assert CompanyText(PatLine) == Some(Slice(PatLine, Span(4, 10)));
  }

  lemma TrimSmith()
    ensures Trim("Smith ") == "Smith"
  {
    assert TrimStart("Smith ") == "Smith ";
    assert "Smith "[..5] == "Smith";
    assert TrimEnd("Smith ") == "Smith";
  }

  /** COMPANY is "Smith": the surname, read as a company after the `at` of "Pat". */
  lemma CompanyInsideWord()
    ensures CompanyField(PatLine) == Some("Smith")
  {
    PatLineGroup();
    TrimSmith();
  }
}
