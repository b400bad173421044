/**
 Worked inputs of getProposals. Each input has a lemma for the words getWords
 extracts, one for the proposal list built from those words, and one for the
 whole of getProposals. The feature names are a parameter fixed by the
 precondition, so that the solver does not unfold the model on them eagerly.
 */
module Scenarios {
  import opened Text
  import opened CaseInsensitiveOrder
  import opened Lexer
  import opened Proposals

  /** The operand list for sorted single-word names: "not" in front of them. */
  lemma OperandsOfPlainNames(sorted: seq<string>, expected: seq<string>)
    requires forall i :: 0 <= i < |sorted| ==> ' ' !in sorted[i]
    requires expected == [Not] + sorted
    ensures [Not] + DisplayAll(sorted) == expected
  {
    assert DisplayAll(sorted) == sorted;
  }

  lemma TrimOfSpace()
    ensures Trim(" ") == ""
  {
    assert LeadingWhite(" ") == 1;
  }

  // "FeatureA " with the caret at the end: after a complete feature name only
  // the binary connectives are offered.

  lemma AfterFeatureRaw()
    ensures RawScan("FeatureA ", 9) == Scan(Words(" ", "FeatureA"), 7)
  {
    var c := "FeatureA ";
    assert SkipNonSpace(c, 8) == 8;
    assert RawCurrent(c, 9) == " ";
    assert SkipSpace(c, 8) == 7;
    assert SkipNonSpace(c, 7) == 0;
    assert Boundary(c, 9) == 7;
    assert RawLast(c, 7) == "FeatureA";
  }

  lemma AfterFeatureWords()
    ensures GetWords("FeatureA ", 9) == Words(" ", "FeatureA")
  {
    var w := Words(" ", "FeatureA");
    AfterFeatureRaw();
    TrimUnchanged("FeatureA");
    TrimOfSpace();
    assert "FeatureA"[..1] != "(";
    StagedWords("FeatureA ", 9, w, "FeatureA");
    assert "FeatureA"[7..] != ")";
    NoCloseParen("FeatureA ", 9, w);
  }

  lemma AfterFeatureList(features: seq<string>)
    requires features == ["FeatureA", "FeatureB"]
    ensures ProposalList(Words(" ", "FeatureA"), "FeatureA ", features) == Connectives
  {
    assert ' ' !in features[0] && ' ' !in features[1];
    assert !AnyQuoteHit(features, "FeatureA ");
    TrimUnchanged("FeatureA");
    assert ConnectiveContext("FeatureA", features);
  }

  lemma AfterFeatureOffersConnectives(features: seq<string>)
    requires features == ["FeatureA", "FeatureB"]
    ensures GetProposals("FeatureA ", 9, features) == Connectives
  {
    AfterFeatureWords();
    AfterFeatureList(features);
  }

  // "(" with the caret at the end: "not", then the features sorted by their
  // plain names, so "Feature B" (a space sorts before a letter) precedes FeatureA.

  lemma AfterOpenParenRaw()
    ensures RawScan("(", 1) == Scan(Words("(", "("), 0)
  {
    var c := "(";
    assert SkipNonSpace(c, 0) == 0;
    assert RawCurrent(c, 1) == c;
    assert Boundary(c, 1) == 0;
    assert RawLast(c, 0) == "(";
  }

  lemma AfterOpenParenWords()
    ensures GetWords("(", 1) == Words("", "(")
  {
    AfterOpenParenRaw();
    TrimUnchanged("(");
    OpenParenStage("(", 1, Words("(", "("), "");
    NoCloseParen("(", 1, Words("", "("));
  }

  lemma LowerFeatureA()
    ensures Lower("FeatureA") == "featurea"
  {
  }

  lemma LowerFeatureB()
    ensures Lower("FeatureB") == "featureb"
  {
  }

  lemma LowerFeatureSpaceB()
    ensures Lower("Feature B") == "feature b"
  {
  }

  lemma LowerGamma()
    ensures Lower("Gamma") == "gamma"
  {
  }

  /** Two names the order puts the other way round are swapped. */
  lemma SortPair(names: seq<string>)
    requires |names| == 2 && !CILessEq(names[0], names[1])
    ensures SortCI(names) == [names[1], names[0]]
  {
    assert SortCI(names[1..][1..]) == [];
    assert SortCI(names[1..]) == [names[1]];
    assert InsertCI(names[0], [names[1]]) == [names[1]] + InsertCI(names[0], []);
  }

  /** A name the order puts after both elements of a sorted pair goes last. */
  lemma InsertAfterPair(x: string, sorted: seq<string>)
    requires |sorted| == 2 && SortedCI(sorted)
    requires !CILessEq(x, sorted[0]) && !CILessEq(x, sorted[1])
    ensures InsertCI(x, sorted) == sorted + [x]
  {
    assert sorted[1..][1..] == [];
    assert InsertCI(x, sorted[1..]) == [sorted[1], x];
  }

  lemma FeatureAFollowsFeatureSpaceB()
    ensures !CILessEq("FeatureA", "Feature B")
  {
    LowerFeatureA();
    LowerFeatureSpaceB();
    LexDecidedAt("featurea", "feature b", 7);
  }

  lemma SpaceSortsBeforeLetter(features: seq<string>)
    requires features == ["FeatureA", "Feature B"]
    ensures SortCI(features) == ["Feature B", "FeatureA"]
  {
    FeatureAFollowsFeatureSpaceB();
    SortPair(features);
  }

  lemma QuotedFirst(sorted: seq<string>)
    requires sorted == ["Feature B", "FeatureA"]
    ensures [Not] + DisplayAll(sorted) == ["not", "\"Feature B\"", "FeatureA"]
  {
    assert sorted[0][7] == ' ';
    assert ' ' !in sorted[1];
    assert Display(sorted[0]) == Quote("Feature B") == "\"Feature B\"";
    assert Display(sorted[1]) == "FeatureA";
    assert DisplayAll(sorted) == ["\"Feature B\"", "FeatureA"];
  }

  lemma AfterOpenParenNoQuoteHit(features: seq<string>)
    requires features == ["FeatureA", "Feature B"]
    ensures !AnyQuoteHit(features, "(")
  {
    assert FragmentStart("(") == 0;
    assert QuoteFragment("(") == "(";
    assert Lower("(") == "(";
    assert ' ' !in features[0];
    assert Lower(features[1])[0] == 'f';
  }

  lemma AfterOpenParenBase(features: seq<string>)
    requires features == ["FeatureA", "Feature B"]
    ensures BaseProposals("(", features) == ["not", "\"Feature B\"", "FeatureA"]
  {
    TrimUnchanged("(");
    assert !ConnectiveContext("(", features);
    OperandBase("(", features);
    SpaceSortsBeforeLetter(features);
    QuotedFirst(SortCI(features));
  }

  lemma AfterOpenParenList(features: seq<string>)
    requires features == ["FeatureA", "Feature B"]
    ensures ProposalList(Words("", "("), "(", features) == ["not", "\"Feature B\"", "FeatureA"]
  {
    AfterOpenParenNoQuoteHit(features);
    AfterOpenParenBase(features);
  }

  lemma AfterOpenParenOffersOperands(features: seq<string>)
    requires features == ["FeatureA", "Feature B"]
    ensures GetProposals("(", 1, features) == ["not", "\"Feature B\"", "FeatureA"]
  {
    AfterOpenParenWords();
    AfterOpenParenList(features);
  }

  // "Feat" with the caret at the end: the longer names it starts are kept,
  // ignoring case; "not" and Gamma drop out.

  lemma PartialNameRaw()
    ensures RawScan("Feat", 4) == Scan(Words("Feat", ""), 0)
  {
    var c := "Feat";
    assert SkipNonSpace(c, 3) == 0;
    assert RawCurrent(c, 4) == c;
    assert Boundary(c, 4) == 0;
    assert RawLast(c, 0) == "";
  }

  lemma PartialNameWords()
    ensures GetWords("Feat", 4) == Words("Feat", "")
  {
    var w := Words("Feat", "");
    PartialNameRaw();
    TrimUnchanged("Feat");
    TrimUnchanged("");
    assert "Feat"[..1] != "(";
    StagedWords("Feat", 4, w, "");
    assert "Feat"[3..] != ")";
    NoCloseParen("Feat", 4, w);
  }

  lemma FeatureAPrecedesFeatureB()
    ensures !CILessEq("FeatureB", "FeatureA")
  {
    LowerFeatureA();
    LowerFeatureB();
    LexDecidedAt("featureb", "featurea", 7);
  }

  lemma FeaturesPrecedeGamma()
    ensures !CILessEq("Gamma", "FeatureA") && !CILessEq("Gamma", "FeatureB")
  {
    LowerGamma();
    LowerFeatureA();
    LowerFeatureB();
    LexDecidedAt("gamma", "featurea", 0);
    LexDecidedAt("gamma", "featureb", 0);
  }

  lemma TwoNamesSorted(names: seq<string>)
    requires names == ["FeatureB", "FeatureA"]
    ensures SortCI(names) == ["FeatureA", "FeatureB"]
  {
    FeatureAPrecedesFeatureB();
    SortPair(names);
  }

  lemma PartialNameSorted(features: seq<string>)
    requires features == ["Gamma", "FeatureB", "FeatureA"]
    ensures SortCI(features) == ["FeatureA", "FeatureB", "Gamma"]
  {
    assert features == [features[0]] + features[1..];
    TwoNamesSorted(features[1..]);
    FeaturesPrecedeGamma();
    InsertAfterPair("Gamma", SortCI(features[1..]));
  }

  lemma StartIsOperandContext(last: string, features: seq<string>)
    requires |last| == 0
    requires features == ["Gamma", "FeatureB", "FeatureA"]
    ensures !ConnectiveContext(last, features) && last != ")"
  {
    TrimUnchanged(last);
    assert Trim(last) !in features;
  }

  lemma PartialNameBase(last: string, features: seq<string>)
    requires |last| == 0
    requires features == ["Gamma", "FeatureB", "FeatureA"]
    ensures BaseProposals(last, features) == ["not", "FeatureA", "FeatureB", "Gamma"]
  {
    StartIsOperandContext(last, features);
    OperandBase(last, features);
    PartialNameSorted(features);
    PlainNamesDisplayed(SortCI(features));
  }

  lemma PlainNamesDisplayed(sorted: seq<string>)
    requires sorted == ["FeatureA", "FeatureB", "Gamma"]
    ensures [Not] + DisplayAll(sorted) == ["not", "FeatureA", "FeatureB", "Gamma"]
  {
    assert ' ' !in sorted[0] && ' ' !in sorted[1] && ' ' !in sorted[2];
    OperandsOfPlainNames(sorted, ["not", "FeatureA", "FeatureB", "Gamma"]);
  }

  lemma PartialNameFiltered(base: seq<string>)
    requires base == ["not", "FeatureA", "FeatureB", "Gamma"]
    ensures FilterPrefix(base, "Feat") == ["FeatureA", "FeatureB"]
  {
    assert Lower("Feat") == "feat";
    assert !PrefixMatch("not", "Feat");
    assert "FeatureA"[..4] == "Feat";
    assert PrefixMatch("FeatureA", "Feat");
    assert "FeatureB"[..4] == "Feat";
    assert PrefixMatch("FeatureB", "Feat");
    assert Lower("Gamma"[..4])[0] == 'g';
    assert !PrefixMatch("Gamma", "Feat");
    assert FilterPrefix(base[3..], "Feat") == [];
    assert FilterPrefix(base[2..], "Feat") == ["FeatureB"];
    assert FilterPrefix(base[1..], "Feat") == ["FeatureA", "FeatureB"];
  }

  lemma PartialNameNoQuoteHit(features: seq<string>)
    requires features == ["Gamma", "FeatureB", "FeatureA"]
    ensures !AnyQuoteHit(features, "Feat")
  {
    assert ' ' !in features[0] && ' ' !in features[1] && ' ' !in features[2];
  }

  lemma PartialNameList(features: seq<string>)
    requires features == ["Gamma", "FeatureB", "FeatureA"]
    ensures ProposalList(Words("Feat", ""), "Feat", features) == ["FeatureA", "FeatureB"]
  {
    PartialNameNoQuoteHit(features);
    TrimUnchanged("Feat");
    PartialNameBase("", features);
    PartialNameFiltered(BaseProposals("", features));
  }

  lemma PartialNameIsCompleted(features: seq<string>)
    requires features == ["Gamma", "FeatureB", "FeatureA"]
    ensures GetProposals("Feat", 4, features) == ["FeatureA", "FeatureB"]
  {
    PartialNameWords();
    PartialNameList(features);
  }

  // "not Feature" with the caret at the end: a fully typed name is not offered
  // again, and "not" is too short to extend it.

  lemma CompleteNameRaw()
    ensures RawScan("not Feature", 11) == Scan(Words(" Feature", "not"), 2)
  {
    var c := "not Feature";
    assert SkipNonSpace(c, 10) == 3;
    assert SkipSpace(c, 3) == 2;
    assert SkipNonSpace(c, 2) == 0;
    assert RawCurrent(c, 11) == " Feature";
    assert Boundary(c, 11) == 2;
    assert RawLast(c, 2) == "not";
  }

  lemma CompleteNameWords()
    ensures GetWords("not Feature", 11) == Words(" Feature", "not")
  {
    var w := Words(" Feature", "not");
    CompleteNameRaw();
    TrimUnchanged("not");
    TypedFeature();
    assert "not"[..1] != "(" && "Feature"[..1] != "(";
    StagedWords("not Feature", 11, w, "not");
    assert "not"[2..] != ")" && " Feature"[7..] != ")";
    NoCloseParen("not Feature", 11, w);
  }

  lemma CompleteNameBase(features: seq<string>)
    requires features == ["Feature"]
    ensures BaseProposals("not", features) == ["not", "Feature"]
  {
    TrimUnchanged("not");
    assert !ConnectiveContext("not", features);
    OperandBase("not", features);
    assert SortCI(features) == features;
    OperandsOfPlainNames(features, ["not", "Feature"]);
  }

  lemma TypedFeature()
    ensures Trim(" Feature") == "Feature"
  {
    assert LeadingWhite(" Feature") == 1;
    assert TrimmedEnd(" Feature") == 8;
    assert " Feature"[1..8] == "Feature";
  }

  lemma CompleteNameFiltered(base: seq<string>)
    requires base == ["not", "Feature"]
    ensures FilterPrefix(base, "Feature") == []
  {
    assert !PrefixMatch(base[0], "Feature") && !PrefixMatch(base[1], "Feature");
    assert FilterPrefix(base[1..], "Feature") == [];
  }

  lemma CompleteNameList(features: seq<string>)
    requires features == ["Feature"]
    ensures ProposalList(Words(" Feature", "not"), "not Feature", features) == []
  {
    assert ' ' !in features[0];
    assert !AnyQuoteHit(features, "not Feature");
    CompleteNameBase(features);
    TypedFeature();
    CompleteNameFiltered(BaseProposals("not", features));
  }

  lemma CompleteNameIsNotReoffered(features: seq<string>)
    requires features == ["Feature"]
    ensures GetProposals("not Feature", 11, features) == []
  {
    CompleteNameWords();
    CompleteNameList(features);
  }

  // 'A and "Fea' with the caret at the end: the text after the last '"' picks
  // out the multi-word feature, and nothing else is offered.

  lemma InsideQuoteMatches(features: seq<string>)
    requires features == ["A", "Feature B"]
    ensures QuotedMatches(features, "A and \"Fea") == ["\"Feature B\""]
  {
    var c := "A and \"Fea";
    assert c[6] == '"';
    assert FragmentStart(c) == 7;
    assert QuoteFragment(c) == "Fea";
    assert features[1][7] == ' ';
    assert Lower("Fea") == "fea";
    assert Lower(features[1])[..3] == "fea";
    assert QuoteHit(features[1], c);
    assert ' ' !in features[0];
    assert features[1..][0] == features[1];
    assert QuotedMatches(features[1..][1..], c) == [];
    assert Quote(features[1]) == "\"Feature B\"";
    assert QuotedMatches(features[1..], c) == ["\"Feature B\""];
  }

  lemma InsideQuoteOffersOnlyQuotedNames(features: seq<string>)
    requires features == ["A", "Feature B"]
    ensures GetProposals("A and \"Fea", 10, features) == ["\"Feature B\""]
  {
    InsideQuoteMatches(features);
  }

  // "(A)" with the caret at the end: rule 4 leaves LAST ")" and nothing is offered.

  lemma ClosedParenWithoutSpaceRaw()
    ensures RawScan("(A)", 3) == Scan(Words("(A)", "("), 0)
  {
    var c := "(A)";
    assert SkipNonSpace(c, 2) == 0;
    assert RawCurrent(c, 3) == "(A)";
    assert Boundary(c, 3) == 0;
    assert RawLast(c, 0) == "(";
  }

  lemma ClosedParenWithoutSpaceWords()
    ensures GetWords("(A)", 3) == Words("", ")")
  {
    ClosedParenWithoutSpaceRaw();
    TrimUnchanged("(A)");
    OpenParenStage("(A)", 3, Words("(A)", "("), "A)");
    assert "A)"[1..] == ")";
    CurrentCloses("(A)", 3, Words("A)", "("));
  }

  lemma ClosedParenWithoutSpaceList(features: seq<string>)
    requires features == ["A"]
    ensures ProposalList(Words("", ")"), "(A)", features) == []
  {
    assert ' ' !in features[0];
    assert !AnyQuoteHit(features, "(A)");
    TrimUnchanged(")");
    assert !ConnectiveContext(")", features);
  }

  lemma ClosedParenWithoutSpaceOffersNothing(features: seq<string>)
    requires features == ["A"]
    ensures GetProposals("(A)", 3, features) == []
  {
    ClosedParenWithoutSpaceWords();
    ClosedParenWithoutSpaceList(features);
  }

  // "(A) " with the caret at the end: rule 1 strips the '(' and rule 3
  // collapses "A)" to ") ", which asks for a connective.

  lemma ClosedParenWithSpaceRaw()
    ensures RawScan("(A) ", 4) == Scan(Words(" ", "(A)"), 2)
  {
    var c := "(A) ";
    assert SkipNonSpace(c, 3) == 3;
    assert SkipSpace(c, 3) == 2;
    assert SkipNonSpace(c, 2) == 0;
    assert RawCurrent(c, 4) == " ";
    assert Boundary(c, 4) == 2;
    assert RawLast(c, 2) == "(A)";
  }

  lemma StripParenOfA()
    ensures StripLastParen("(A)") == "A)"
  {
    TrimUnchanged("(A)");
    assert LeadingWhite("(A)") == 0;
  }

  lemma ClosedParenWithSpaceWords()
    ensures GetWords("(A) ", 4) == Words(" ", ") ")
  {
    ClosedParenWithSpaceRaw();
    StripParenOfA();
    TrimOfSpace();
    StagedWords("(A) ", 4, Words(" ", "(A)"), "A)");
    assert "A)"[1..] == ")" && " "[0..] != ")";
    LastCloses("(A) ", 4, Words(" ", "A)"));
  }

  lemma ClosedParenWithSpaceList(features: seq<string>)
    requires features == ["A"]
    ensures ProposalList(Words(" ", ") "), "(A) ", features) == Connectives
  {
    assert ' ' !in features[0];
    assert !AnyQuoteHit(features, "(A) ");
  }

  lemma ClosedParenWithSpaceOffersConnectives(features: seq<string>)
    requires features == ["A"]
    ensures GetProposals("(A) ", 4, features) == Connectives
  {
    ClosedParenWithSpaceWords();
    ClosedParenWithSpaceList(features);
  }

  // "A " with the caret at the end: a first word of one character is never read
  // as LAST (only "(" is), so even after the feature A the operand list is offered.

  lemma OneLetterFirstWordRaw()
    ensures RawScan("A ", 2) == Scan(Words(" ", ""), 0)
  {
    var c := "A ";
    assert SkipNonSpace(c, 1) == 1;
    assert RawCurrent(c, 2) == " ";
    assert SkipSpace(c, 1) == 0;
    assert Boundary(c, 2) == 0;
    assert RawLast(c, 0) == "";
  }

  lemma OneLetterFirstWordWords()
    ensures GetWords("A ", 2) == Words(" ", "")
  {
    var w := Words(" ", "");
    OneLetterFirstWordRaw();
    TrimOfSpace();
    TrimUnchanged("");
    StagedWords("A ", 2, w, "");
    assert " "[0..] != ")";
    NoCloseParen("A ", 2, w);
  }

  lemma OneLetterFirstWordList(features: seq<string>)
    requires features == ["A"]
    ensures ProposalList(Words(" ", ""), "A ", features) == ["not", "A"]
  {
    assert ' ' !in features[0];
    assert !AnyQuoteHit(features, "A ");
    TrimUnchanged("");
    assert !ConnectiveContext("", features);
    OperandBase("", features);
    assert SortCI(features) == features;
    OperandsOfPlainNames(features, ["not", "A"]);
  }

  lemma OneLetterFirstWordOffersOperands(features: seq<string>)
    requires features == ["A"]
    ensures GetProposals("A ", 2, features) == ["not", "A"]
  {
    OneLetterFirstWordWords();
    OneLetterFirstWordList(features);
  }
}
