# Content assist for feature-model constraints

This project models the content-assist engine of FeatureIDE's constraint
editor (`ConstraintContentProposalProvider`). A constraint is a
propositional formula over feature names. It uses the connectives `and`,
`iff`, `implies`, `or`, the negation `not` and parentheses. A feature name
that contains a space is written in double quotes.

Given the editor text and the caret position, the engine works in two steps:

- `getWords` scans left from the caret. It finds the word being typed
  (CURRENT) and the word before it (LAST), then applies four ordered rules
  about `(` and `)`.
- The instance `getProposalList` decides what to offer:
  - first, a short-circuit: the quoted multi-word feature names that match
    the text after the last `"`;
  - otherwise, the list from the static classifier. That list is filtered by
    the typed prefix unless nothing has been typed yet.
- The static classifier looks at the word before the caret:
  - after a complete operand, it offers the binary connectives in a fixed
    order;
  - after a bare `)`, it offers nothing;
  - anywhere else, it offers `not` followed by every feature. The features
    are sorted case-insensitively and quoted when they contain a space.

The model is split into these modules:

- `Text` (text.dfy): the `java.lang.String` operations the engine calls,
  over ASCII.
- `CaseInsensitiveOrder` (ordering.dfy): `String.CASE_INSENSITIVE_ORDER`
  and the sort that uses it. The sort is a stable insertion sort, proved
  to return a sorted permutation.
- `Lexer` (lexer.dfy): `getWords`. It is written twice:
  - as recursive functions, one per scan and one per rule;
  - as a method with the source's three `while` loops, proved equal to the
    functions.
- `Proposals` (proposals.dfy): the classifier, the prefix filter, the quoted
  short-circuit and `getProposals`.
- `Scenarios` (scenarios.dfy): worked inputs, each proved end to end.

A proposal is modelled by its content string. The feature set is a
sequence in the set's iteration order, because Java leaves that order
unspecified.

The sort compares plain names, before any quoting, and a space sorts before
a letter. So for `(` with `FeatureA` and `Feature B` the code offers
`not, "Feature B", FeatureA` (`Scenarios.AfterOpenParenOffersOperands`).

Reading the rules of `getWords` shows one dead branch. The third rule fires
when LAST ends in `)`. When it fires, the character at `posMarker` is always
that same `)`, so LAST always becomes `") "`. The bare `")"` therefore comes
only from the fourth rule, which also clears CURRENT. `Lexer.GetWords`
states this. It is dead code, not a wrong result, so there is no Findings
section.

The scans also have a quirk at the start of the text (lines 141-145 of
`ConstraintContentProposalProvider.java`). When
the word before the caret is the first word and has a single character,
LAST is only kept if that character is `(`. Any other one-character first
word is dropped, and LAST becomes empty. So after `A ` with the feature `A`,
the operand list `not, A` is offered instead of the connectives
(`Scenarios.OneLetterFirstWordOffersOperands`). The model keeps this
behaviour as written.

## Model

All source paths below are under
`plugins/de.ovgu.featureide.fm.ui/src/de/ovgu/featureide/fm/ui/editors/`.

| member | source | states |
|---|---|---|
| Text.TrimIsLongestInnerInfix | plugins/de.ovgu.featureide.fm.ui/src/de/ovgu/featureide/fm/ui/editors/ConstraintContentProposalProvider.java:155-156 | `trim()` keeps the infix that starts after the leading white characters. Only white characters follow it, and it neither starts nor ends with a white character. |
| Text.IndexOf | plugins/de.ovgu.featureide.fm.ui/src/de/ovgu/featureide/fm/ui/editors/ConstraintContentProposalProvider.java:152 | `indexOf` gives -1 exactly when the character is absent. Otherwise it gives an index holding the character, with no earlier occurrence. |
| Text.LastIndexOf | plugins/de.ovgu.featureide.fm.ui/src/de/ovgu/featureide/fm/ui/editors/ConstraintContentProposalProvider.java:83 | `lastIndexOf` gives -1 exactly when the character is absent. Otherwise it gives an index holding the character, with no later occurrence. |
| CaseInsensitiveOrder.CITotal | plugins/de.ovgu.featureide.fm.ui/src/de/ovgu/featureide/fm/ui/editors/ConstraintContentProposalProvider.java:191 | The case-insensitive order relates any two names one way or the other. |
| CaseInsensitiveOrder.CITransitive | plugins/de.ovgu.featureide.fm.ui/src/de/ovgu/featureide/fm/ui/editors/ConstraintContentProposalProvider.java:191 | The case-insensitive order is transitive. |
| CaseInsensitiveOrder.CITiesAgreeIgnoringCase | plugins/de.ovgu.featureide.fm.ui/src/de/ovgu/featureide/fm/ui/editors/ConstraintContentProposalProvider.java:191 | Two names ordered both ways are equal ignoring case, so only case variants tie. |
| CaseInsensitiveOrder.LexDecidedAt | plugins/de.ovgu.featureide.fm.ui/src/de/ovgu/featureide/fm/ui/editors/ConstraintContentProposalProvider.java:191 | After a common prefix, the first differing character decides the order. |
| CaseInsensitiveOrder.InsertCI | plugins/de.ovgu.featureide.fm.ui/src/de/ovgu/featureide/fm/ui/editors/ConstraintContentProposalProvider.java:191 | Inserting into a sorted list keeps it sorted and adds exactly the new name. |
| CaseInsensitiveOrder.SortCI | plugins/de.ovgu.featureide.fm.ui/src/de/ovgu/featureide/fm/ui/editors/ConstraintContentProposalProvider.java:190-191 | The sorted feature list is ordered case-insensitively and is a permutation of the feature set. |
| Lexer.SkipNonSpace | plugins/de.ovgu.featureide.fm.ui/src/de/ovgu/featureide/fm/ui/editors/ConstraintContentProposalProvider.java:129-131 | The scan stops at index 0 or on a space, and passes over no space. |
| Lexer.SkipSpace | plugins/de.ovgu.featureide.fm.ui/src/de/ovgu/featureide/fm/ui/editors/ConstraintContentProposalProvider.java:134-136 | The scan stops at index 0 or on a non-space, and passes over only spaces. |
| Lexer.RawCurrent | plugins/de.ovgu.featureide.fm.ui/src/de/ovgu/featureide/fm/ui/editors/ConstraintContentProposalProvider.java:129-132 | Raw CURRENT is a non-empty tail of the text before the caret. Only its first character can be a space, and it reaches back to index 0 or starts with a space. |
| Lexer.Boundary | plugins/de.ovgu.featureide.fm.ui/src/de/ovgu/featureide/fm/ui/editors/ConstraintContentProposalProvider.java:134-136 | `posMarker` lies in front of CURRENT. It sits on a non-space or on index 0, with only spaces up to CURRENT. |
| Lexer.RawLast | plugins/de.ovgu.featureide.fm.ui/src/de/ovgu/featureide/fm/ui/editors/ConstraintContentProposalProvider.java:137-147 | At boundary 0, LAST is `(` or empty. Otherwise LAST is the word ending at the boundary, with a space only in front. If LAST ends in `)`, that `)` is the boundary character. |
| Lexer.RawScan | plugins/de.ovgu.featureide.fm.ui/src/de/ovgu/featureide/fm/ui/editors/ConstraintContentProposalProvider.java:124-149 | At position 0 both words are empty. Otherwise `posMarker` lies in `[0, position)`, so `charAt(posMarker)` is in range, and a LAST ending in `)` has it at `posMarker`. |
| Lexer.StripLastParen | plugins/de.ovgu.featureide.fm.ui/src/de/ovgu/featureide/fm/ui/editors/ConstraintContentProposalProvider.java:151-154 | Rule 1: when LAST, trimmed, opens with `(` and is longer than one character, LAST becomes the text after its first non-white character, which is that `(`. Otherwise LAST is unchanged. |
| Lexer.ParenStage | plugins/de.ovgu.featureide.fm.ui/src/de/ovgu/featureide/fm/ui/editors/ConstraintContentProposalProvider.java:151-159 | Rules 1 and 2 never make a LAST end in `)` unless the raw LAST already did. |
| Lexer.GetWords | plugins/de.ovgu.featureide.fm.ui/src/de/ovgu/featureide/fm/ui/editors/ConstraintContentProposalProvider.java:120-175 | Position 0 gives two empty words. CURRENT never ends in `)`. A LAST ending in `)` is exactly `") "` or `")"`. `")"` comes only from rule 4, with CURRENT empty, and rule 3 always yields `") "`. Whenever rule 4 fires, the result is exactly `("", ")")`. |
| Lexer.OpenParenRule | plugins/de.ovgu.featureide.fm.ui/src/de/ovgu/featureide/fm/ui/editors/ConstraintContentProposalProvider.java:155-172 | When the trimmed raw CURRENT opens with `(`, the result is LAST `(` with CURRENT the trimmed rest. If that rest ends in `)`, rule 4 gives `("", ")")` instead. |
| Lexer.StagedWords | plugins/de.ovgu.featureide.fm.ui/src/de/ovgu/featureide/fm/ui/editors/ConstraintContentProposalProvider.java:151-159 | When the trimmed CURRENT does not open with `(`, rule 2 leaves CURRENT as scanned and LAST as rule 1 left it. |
| Lexer.OpenParenStage | plugins/de.ovgu.featureide.fm.ui/src/de/ovgu/featureide/fm/ui/editors/ConstraintContentProposalProvider.java:155-159 | When the trimmed CURRENT opens with `(`, LAST becomes `(` and CURRENT the trimmed text after that `(`, whatever rule 1 did. |
| Lexer.NoCloseParen | plugins/de.ovgu.featureide.fm.ui/src/de/ovgu/featureide/fm/ui/editors/ConstraintContentProposalProvider.java:160-172 | When neither word ends in `)` after rules 1 and 2, rules 3 and 4 change nothing. |
| Lexer.LastCloses | plugins/de.ovgu.featureide.fm.ui/src/de/ovgu/featureide/fm/ui/editors/ConstraintContentProposalProvider.java:160-167 | When only LAST ends in `)`, CURRENT is kept and LAST becomes `") "`. |
| Lexer.CurrentCloses | plugins/de.ovgu.featureide.fm.ui/src/de/ovgu/featureide/fm/ui/editors/ConstraintContentProposalProvider.java:168-172 | When CURRENT ends in `)`, the words are exactly `("", ")")`, whatever LAST was. |
| Lexer.ScanWords | plugins/de.ovgu.featureide.fm.ui/src/de/ovgu/featureide/fm/ui/editors/ConstraintContentProposalProvider.java:124-149 | The three `while` loops compute the same words and `posMarker` as the recursive scans. |
| Lexer.ComputeWords | plugins/de.ovgu.featureide.fm.ui/src/de/ovgu/featureide/fm/ui/editors/ConstraintContentProposalProvider.java:120-175 | The imperative `getWords`, loops and rule updates in source order, equals `GetWords`. |
| Proposals.UnquoteQuote | plugins/de.ovgu.featureide.fm.ui/src/de/ovgu/featureide/fm/ui/editors/ConstraintContentProposalProvider.java:204-205 | Quoting a name with a space can be undone, and the quoted form still contains the space. |
| Proposals.DisplayRoundTrip | plugins/de.ovgu.featureide.fm.ui/src/de/ovgu/featureide/fm/ui/editors/ConstraintContentProposalProvider.java:203-208 | Every feature name is recovered from its offered form. A name is offered quoted exactly when it contains a space. |
| Proposals.BaseProposals | plugins/de.ovgu.featureide.fm.ui/src/de/ovgu/featureide/fm/ui/editors/ConstraintContentProposalProvider.java:186-211 | The three outcomes: the four connectives in order after a complete operand, nothing after a bare `)`, and otherwise `not` followed by every feature. The features are sorted case-insensitively by plain name, each in its displayed form, and the list has length 1 + the number of features. |
| Proposals.OperandBase | plugins/de.ovgu.featureide.fm.ui/src/de/ovgu/featureide/fm/ui/editors/ConstraintContentProposalProvider.java:200-209 | Outside a connective context and after anything but `)`, the classifier offers `not` followed by the case-insensitively sorted features in displayed form. |
| Proposals.BaseProposalsInVocabulary | plugins/de.ovgu.featureide.fm.ui/src/de/ovgu/featureide/fm/ui/editors/ConstraintContentProposalProvider.java:194-208 | The classifier offers only connectives, `not`, or displayed feature names. |
| Proposals.FilterPrefix | plugins/de.ovgu.featureide.fm.ui/src/de/ovgu/featureide/fm/ui/editors/ConstraintContentProposalProvider.java:96-103 | A proposal survives exactly when it is in the base list, strictly longer than the typed text, and starts with it ignoring case. |
| Proposals.FilterPrefixAppend | plugins/de.ovgu.featureide.fm.ui/src/de/ovgu/featureide/fm/ui/editors/ConstraintContentProposalProvider.java:96-103 | The filter commutes with concatenation, so it keeps the base order. |
| Proposals.FilterLaw | plugins/de.ovgu.featureide.fm.ui/src/de/ovgu/featureide/fm/ui/editors/ConstraintContentProposalProvider.java:98-99 | A survivor, lower-cased, starts with the lower-cased typed text. A name of the typed length is never offered again. |
| Proposals.FragmentStart | plugins/de.ovgu.featureide.fm.ui/src/de/ovgu/featureide/fm/ui/editors/ConstraintContentProposalProvider.java:83 | The compared fragment starts just after the last `"`, and contains no `"`. It is the whole text exactly when there is no `"`. |
| Proposals.QuotedMatches | plugins/de.ovgu.featureide.fm.ui/src/de/ovgu/featureide/fm/ui/editors/ConstraintContentProposalProvider.java:80-88 | The loop offers exactly the quoted forms of the matching multi-word features. |
| Proposals.QuotedMatchesShape | plugins/de.ovgu.featureide.fm.ui/src/de/ovgu/featureide/fm/ui/editors/ConstraintContentProposalProvider.java:80-89 | `caught` is set exactly when some multi-word feature matches. Every entry then has a space and is neither a connective nor `not`. |
| Proposals.EmptyTextMatchesEveryMultiWordName | plugins/de.ovgu.featureide.fm.ui/src/de/ovgu/featureide/fm/ui/editors/ConstraintContentProposalProvider.java:83 | On empty text the fragment is empty, so every multi-word name matches. |
| Proposals.ProposalList | plugins/de.ovgu.featureide.fm.ui/src/de/ovgu/featureide/fm/ui/editors/ConstraintContentProposalProvider.java:76-107 | On a quoted match, exactly the matching quoted names are offered, with no connective, `not` or bare name. Otherwise, with CURRENT `(`, `" "` or empty, the base list for LAST is offered. Otherwise it is the in-order prefix filter of that list by the trimmed CURRENT. |
| Proposals.GetProposals | plugins/de.ovgu.featureide.fm.ui/src/de/ovgu/featureide/fm/ui/editors/ConstraintContentProposalProvider.java:57-68 | Every proposal is a connective, `not`, or a feature name in its displayed form. |
| Proposals.EmptyEditorOffersOnlyQuotedNames | plugins/de.ovgu.featureide.fm.ui/src/de/ovgu/featureide/fm/ui/editors/ConstraintContentProposalProvider.java:80-88 | On an empty editor with at least one multi-word feature, the offers are exactly the quoted multi-word names. |
| Scenarios.AfterFeatureOffersConnectives | plugins/de.ovgu.featureide.fm.ui/src/de/ovgu/featureide/fm/ui/editors/ConstraintContentProposalProvider.java:194-199 | After `FeatureA ` the offers are `and, iff, implies, or`. |
| Scenarios.AfterOpenParenOffersOperands | plugins/de.ovgu.featureide.fm.ui/src/de/ovgu/featureide/fm/ui/editors/ConstraintContentProposalProvider.java:200-208 | After `(` the offers are `not, "Feature B", FeatureA`, sorted by plain name. |
| Scenarios.PartialNameIsCompleted | plugins/de.ovgu.featureide.fm.ui/src/de/ovgu/featureide/fm/ui/editors/ConstraintContentProposalProvider.java:95-104 | After `Feat`, from `Gamma, FeatureB, FeatureA`, the offers are `FeatureA, FeatureB`. |
| Scenarios.CompleteNameIsNotReoffered | plugins/de.ovgu.featureide.fm.ui/src/de/ovgu/featureide/fm/ui/editors/ConstraintContentProposalProvider.java:98 | After `not Feature`, with only the feature `Feature`, nothing is offered. |
| Scenarios.InsideQuoteOffersOnlyQuotedNames | plugins/de.ovgu.featureide.fm.ui/src/de/ovgu/featureide/fm/ui/editors/ConstraintContentProposalProvider.java:80-88 | After `A and "Fea` the only offer is `"Feature B"`. |
| Scenarios.ClosedParenWithoutSpaceOffersNothing | plugins/de.ovgu.featureide.fm.ui/src/de/ovgu/featureide/fm/ui/editors/ConstraintContentProposalProvider.java:168-172 | With the caret right after `(A)` the words are `("", ")")`, and nothing is offered. |
| Scenarios.ClosedParenWithSpaceOffersConnectives | plugins/de.ovgu.featureide.fm.ui/src/de/ovgu/featureide/fm/ui/editors/ConstraintContentProposalProvider.java:160-164 | After `(A) ` the words are `(" ", ") ")`, and the connectives are offered. |
| Scenarios.OneLetterFirstWordOffersOperands | plugins/de.ovgu.featureide.fm.ui/src/de/ovgu/featureide/fm/ui/editors/ConstraintContentProposalProvider.java:141-145 | After `A ` with the feature `A`, the one-character first word is dropped as LAST, so the offers are `not, A`. |

## Left out

- Case handling covers ASCII only. `toLowerCase`, `equalsIgnoreCase` and
  `CASE_INSENSITIVE_ORDER` are one fold of `A`-`Z` to `a`-`z`, and `trim()`
  strips characters up to U+0020. Unicode case mapping and locales are not
  modelled.
- Set iteration order is unspecified in Java. The feature set is a sequence
  parameter, so the order of quoted matches and of ties in the sort follow
  that sequence.
- The `IContentProposal`/`ContentProposal` wrapper and the array conversion
  in `getProposals` are not modelled. A proposal is its content string.
- A caret position outside `0..length` makes `charAt` (line 129) or
  `substring` (line 132) throw `StringIndexOutOfBoundsException`. The model
  requires `0 <= position <= |contents|` instead of modelling the exception.
- Lexer.OpenParenCurrent, Lexer.CloseParenLast, Lexer.CloseParenCurrent:
  these are single rules with no contract of their own. They are stated
  through `Lexer.StagedWords` and `Lexer.OpenParenStage` (rule 2 off and on),
  `Lexer.NoCloseParen`, `Lexer.LastCloses` (rule 3) and
  `Lexer.CurrentCloses` (rule 4), and through `Lexer.GetWords`,
  `Lexer.OpenParenRule` and `Lexer.ComputeWords`.
- CaseInsensitiveOrder.SortCI: states sortedness and permutation, but not
  stability. Ties only occur between case variants of one name.
- The editor's other classes are not part of this model: edit parts,
  dialogs, wizards, drawing routines, actions, label providers and file
  writers. They are UI plumbing, I/O or floating-point drawing.
