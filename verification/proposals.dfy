/**
 Proposal generation of ConstraintContentProposalProvider: the context
 classifier (static getProposalList), the quoted multi-word short-circuit
 and prefix filter (instance getProposalList), and getProposals, which feeds
 the words of getWords into them. A proposal is modelled by its content
 string; the feature set is passed in as a sequence in its iteration order.
 */
module Proposals {
  import opened Text
  import opened CaseInsensitiveOrder
  import opened Lexer

  /** The binary connectives, in the fixed order they are offered. */
  const Connectives: seq<string> := ["and", "iff", "implies", "or"]

  /** The one unary connective, offered first in an operand position. */
  const Not: string := "not"

  function Quote(name: string): string {
    "\"" + name + "\""
  }

  /** How a feature name is offered: in double quotes exactly when it contains a space. */
  function Display(name: string): string {
    if ' ' in name then Quote(name) else name
  }

  /** The feature name a displayed proposal stands for. */
  function Unquote(p: string): string {
    if |p| >= 2 && p[0] == '"' && p[|p| - 1] == '"' && ' ' in p then p[1..|p| - 1] else p
  }

  lemma UnquoteQuote(name: string)
    requires ' ' in name
    ensures Unquote(Quote(name)) == name
    ensures ' ' in Quote(name)
  {
    var q := Quote(name);
    var k :| 0 <= k < |name| && name[k] == ' ';
    assert q[k + 1] == ' ';
  }

  /** Every feature name is recovered from the form in which it is offered. */
  lemma DisplayRoundTrip(name: string)
    ensures Unquote(Display(name)) == name
    ensures Display(name) == Quote(name) <==> ' ' in name
  {
    if ' ' in name {
      UnquoteQuote(name);
    } else {
      assert |Quote(name)| != |name|;
    }
  }

  function DisplayAll(names: seq<string>): (ps: seq<string>)
    ensures |ps| == |names|
    ensures forall i :: 0 <= i < |names| ==> ps[i] == Display(names[i])
  {
    seq(|names|, i requires 0 <= i < |names| => Display(names[i]))
  }

  function UnquoteAll(ps: seq<string>): (names: seq<string>)
    ensures |names| == |ps|
    ensures forall i :: 0 <= i < |ps| ==> names[i] == Unquote(ps[i])
  {
    seq(|ps|, i requires 0 <= i < |ps| => Unquote(ps[i]))
  }

  /** The word before the caret completes an operand, so a binary connective must follow. */
  predicate ConnectiveContext(wordBefore: string, features: seq<string>) {
    wordBefore == ") " || Trim(wordBefore) in features || EndsWith(Trim(wordBefore), "\"")
  }

  /**
   The operand list: "not", then every feature once (counted as a multiset),
   sorted case-insensitively by its plain name, each in its displayed form.
   */
  predicate IsOperandList(r: seq<string>, features: seq<string>) {
    && |r| == 1 + |features|
    && r[0] == Not
    && multiset(UnquoteAll(r[1..])) == multiset(features)
    && SortedCI(UnquoteAll(r[1..]))
    && forall i :: 1 <= i < |r| ==> r[i] == Display(Unquote(r[i]))
  }

  /** Static getProposalList: what the word before the caret allows, before any filtering. */
  function BaseProposals(wordBefore: string, features: seq<string>): (r: seq<string>)
    ensures ConnectiveContext(wordBefore, features) ==> r == Connectives
    ensures !ConnectiveContext(wordBefore, features) && wordBefore == ")" ==> r == []
    ensures !ConnectiveContext(wordBefore, features) && wordBefore != ")" ==> IsOperandList(r, features)
  {
    if ConnectiveContext(wordBefore, features) then Connectives
    else if wordBefore != ")" then
      var sorted := SortCI(features);
      var r := [Not] + DisplayAll(sorted);
      assert UnquoteAll(r[1..]) == sorted by {
        forall i | 0 <= i < |sorted| ensures UnquoteAll(r[1..])[i] == sorted[i] {
          DisplayRoundTrip(sorted[i]);
        }
      }
      forall i | 1 <= i < |r| ensures r[i] == Display(Unquote(r[i])) {
        DisplayRoundTrip(sorted[i - 1]);
      }
      r
    else []
  }

  /** Outside a connective context and after anything but ")", the classifier offers the operand list. */
  lemma OperandBase(wordBefore: string, features: seq<string>)
    requires !ConnectiveContext(wordBefore, features) && wordBefore != ")"
    ensures BaseProposals(wordBefore, features) == [Not] + DisplayAll(SortCI(features))
  {
  }

  /** A proposal survives the typed text when it is strictly longer and starts with it, ignoring case. */
  predicate PrefixMatch(p: string, typed: string) {
    |p| > |typed| && EqualsIgnoreCase(p[..|typed|], typed)
  }

  /** The prefix filter of lines 96-103, keeping the surviving proposals in order. */
  function FilterPrefix(base: seq<string>, typed: string): (r: seq<string>)
    ensures |r| <= |base|
    ensures forall p :: p in r <==> p in base && PrefixMatch(p, typed)
  {
    if |base| == 0 then []
    else (if PrefixMatch(base[0], typed) then [base[0]] else []) + FilterPrefix(base[1..], typed)
  }

  /** The filter works element by element, so it keeps the order of what it keeps. */
  lemma {:induction false} FilterPrefixAppend(a: seq<string>, b: seq<string>, typed: string)
    ensures FilterPrefix(a + b, typed) == FilterPrefix(a, typed) + FilterPrefix(b, typed)
  {
    if |a| > 0 {
      assert (a + b)[0] == a[0];
      assert (a + b)[1..] == a[1..] + b;
      FilterPrefixAppend(a[1..], b, typed);
    } else {
      assert a + b == b;
    }
  }

  /** The filtering law: a survivor starts with the typed text after lower-casing and is never just as long. */
  lemma FilterLaw(base: seq<string>, typed: string, p: string)
    requires p in FilterPrefix(base, typed)
    ensures StartsWith(Lower(p), Lower(typed))
    ensures |p| != |typed|
  {
    assert Lower(p)[..|typed|] == Lower(p[..|typed|]);
  }

  /**
   Where the text the quoted short-circuit compares with begins: just after
   the last '"' of the whole contents, or at 0 when there is no '"'. The caret
   position plays no part.
   */
  function FragmentStart(contents: string): (start: nat)
    ensures start <= |contents|
    ensures '"' !in contents[start..]
    ensures start > 0 ==> contents[start - 1] == '"'
    ensures start == 0 <==> '"' !in contents
  {
    LastIndexOf(contents, '"') + 1
  }

  /** The partial quoted name being typed, as line 83 reads it off the contents. */
  function QuoteFragment(contents: string): string {
    contents[FragmentStart(contents)..]
  }

  /** A multi-word feature whose lower-cased name starts with the lower-cased fragment. */
  predicate QuoteHit(name: string, contents: string) {
    ' ' in name && StartsWith(Lower(name), Lower(QuoteFragment(contents)))
  }

  predicate AnyQuoteHit(features: seq<string>, contents: string) {
    exists name :: name in features && QuoteHit(name, contents)
  }

  /** The loop of lines 81-88: the quoted form of every multi-word feature that matches the fragment. */
  function QuotedMatches(features: seq<string>, contents: string): (r: seq<string>)
    ensures |r| <= |features|
    ensures forall p :: p in r ==>
      && Unquote(p) in features
      && QuoteHit(Unquote(p), contents)
      && p == Quote(Unquote(p))
    ensures forall name :: name in features && QuoteHit(name, contents) ==> Quote(name) in r
  {
    if |features| == 0 then []
    else
      var rest := QuotedMatches(features[1..], contents);
      if QuoteHit(features[0], contents) then
        UnquoteQuote(features[0]);
        [Quote(features[0])] + rest
      else rest
  }

  /** No connective is spelt with a space. */
  lemma ConnectivesHaveNoSpace()
    ensures ' ' !in Not
    ensures forall c :: c in Connectives ==> ' ' !in c
  {
    assert Connectives == ["and", "iff", "implies", "or"];
  }

  /** The short-circuit fires exactly when some multi-word feature matches, and offers only names with a space. */
  lemma QuotedMatchesShape(features: seq<string>, contents: string)
    ensures |QuotedMatches(features, contents)| > 0 <==> AnyQuoteHit(features, contents)
    ensures forall p :: p in QuotedMatches(features, contents) ==> ' ' in p && p !in Connectives && p != Not
  {
    var r := QuotedMatches(features, contents);
    if |r| > 0 {
      assert r[0] in r;
    }
    ConnectivesHaveNoSpace();
    forall p | p in r ensures ' ' in p {
      UnquoteQuote(Unquote(p));
    }
  }

  /** With nothing typed there is no '"' and the fragment is empty, so every multi-word name matches. */
  lemma EmptyTextMatchesEveryMultiWordName(name: string, contents: string)
    requires ' ' in name && |contents| == 0
    ensures QuoteHit(name, contents)
  {
    assert FragmentStart(contents) == 0;
    assert Lower(QuoteFragment(contents)) == [];
  }

  /** Instance getProposalList: the quoted short-circuit, then the classifier, filtered unless nothing is typed yet. */
  function ProposalList(words: Words, contents: string, features: seq<string>): (r: seq<string>)
    // the short-circuit: exactly the quoted matching multi-word features, as a set
    ensures AnyQuoteHit(features, contents) ==>
      && (forall p :: p in r ==> Unquote(p) in features && QuoteHit(Unquote(p), contents) && p == Quote(Unquote(p)))
      && (forall name :: name in features && QuoteHit(name, contents) ==> Quote(name) in r)
    // ... so no connective, no "not" and no bare name is mixed in
    ensures AnyQuoteHit(features, contents) ==> forall p :: p in r ==> p !in Connectives && p != Not && ' ' in p
    ensures !AnyQuoteHit(features, contents) && words.current in {"(", " ", ""} ==>
      r == BaseProposals(words.last, features)
    ensures !AnyQuoteHit(features, contents) && words.current !in {"(", " ", ""} ==>
      && r == FilterPrefix(BaseProposals(words.last, features), Trim(words.current))
      && forall p :: p in r <==> p in BaseProposals(words.last, features) && PrefixMatch(p, Trim(words.current))
  {
    var quoted := QuotedMatches(features, contents);
    QuotedMatchesShape(features, contents);
    if |quoted| > 0 then quoted
    else if words.current == "(" || words.current == " " || words.current == "" then
      BaseProposals(words.last, features)
    else
      FilterPrefix(BaseProposals(words.last, features), Trim(words.current))
  }

  /** What may ever be offered: a binary connective, "not", or a feature in its displayed form. */
  predicate InVocabulary(p: string, features: seq<string>) {
    p in Connectives || p == Not || exists name :: name in features && p == Display(name)
  }

  lemma BaseProposalsInVocabulary(wordBefore: string, features: seq<string>)
    ensures forall p :: p in BaseProposals(wordBefore, features) ==> InVocabulary(p, features)
  {
    var r := BaseProposals(wordBefore, features);
    if !ConnectiveContext(wordBefore, features) && wordBefore != ")" {
      forall i | 1 <= i < |r| ensures InVocabulary(r[i], features) {
        var names := UnquoteAll(r[1..]);
        assert names[i - 1] == Unquote(r[i]);
        assert Unquote(r[i]) in multiset(features);
      }
    }
  }

  /** getProposals: the words around the caret fed into the proposal list. */
  function GetProposals(contents: string, position: int, features: seq<string>): (r: seq<string>)
    requires 0 <= position <= |contents|
    ensures forall p :: p in r ==> InVocabulary(p, features)
  {
    var r := ProposalList(GetWords(contents, position), contents, features);
    var words := GetWords(contents, position);
    BaseProposalsInVocabulary(words.last, features);
    forall p | p in r ensures InVocabulary(p, features) {
      if AnyQuoteHit(features, contents) {
        DisplayRoundTrip(Unquote(p));
      }
    }
    r
  }

  /**
   On an empty editor the quoted short-circuit already fires as soon as one
   feature name has a space: exactly the multi-word names are offered, quoted,
   and neither "not" nor any single-word name is.
   */
  lemma EmptyEditorOffersOnlyQuotedNames(features: seq<string>)
    requires exists name :: name in features && ' ' in name
    ensures forall p :: p in GetProposals("", 0, features) <==>
      exists name :: name in features && ' ' in name && p == Quote(name)
  {
    var r := GetProposals("", 0, features);
    var name :| name in features && ' ' in name;
    EmptyTextMatchesEveryMultiWordName(name, "");
    forall n | n in features && ' ' in n ensures Quote(n) in r {
      EmptyTextMatchesEveryMultiWordName(n, "");
    }
  }
}
