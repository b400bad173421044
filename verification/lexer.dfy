/**
 getWords of ConstraintContentProposalProvider: from the editor contents and
 the caret position, the word being typed (CURRENT) and the word before it
 (LAST), found by three left-scans and then normalised by four ordered rules
 about parentheses.
 */
module Lexer {
  import opened Text

  /** The two-element array {CURRENT, LAST} that getWords returns. */
  datatype Words = Words(current: string, last: string)

  /**
   The words as the scans leave them, before normalisation, together with
   posMarker: the index where the space-skipping scan stopped (-1 when the
   caret is at the start), which the third rule reads again.
   */
  datatype Scan = Scan(words: Words, marker: int)

  /** Scan left from `i` while the character is not a space, stopping at index 0. */
  function SkipNonSpace(contents: string, i: nat): (j: nat)
    requires i < |contents|
    ensures j <= i
    ensures j == 0 || contents[j] == ' '
    ensures forall t :: j < t <= i ==> contents[t] != ' '
  {
    if i > 0 && contents[i] != ' ' then SkipNonSpace(contents, i - 1) else i
  }

  /** Scan left from `i` while the character is a space, stopping at index 0. */
  function SkipSpace(contents: string, i: nat): (j: nat)
    requires i < |contents|
    ensures j <= i
    ensures j == 0 || contents[j] != ' '
    ensures forall t :: j < t <= i ==> contents[t] == ' '
  {
    if i > 0 && contents[i] == ' ' then SkipSpace(contents, i - 1) else i
  }

  /** The text of no space except possibly its first character. */
  predicate SpaceOnlyInFront(w: string) {
    forall t :: 1 <= t < |w| ==> w[t] != ' '
  }

  /** CURRENT before normalisation: from where the first scan stops up to the caret. */
  function RawCurrent(contents: string, position: int): (cur: string)
    requires 0 < position <= |contents|
    // a non-empty tail of the text before the caret that reaches back to the
    // start of the text or to a space, and holds no other space
    ensures 0 < |cur| <= position
    ensures cur == contents[position - |cur|..position]
    ensures SpaceOnlyInFront(cur)
    ensures |cur| == position || cur[0] == ' '
  {
    contents[SkipNonSpace(contents, position - 1)..position]
  }

  /** posMarker after the second scan: the last non-space in front of CURRENT, or 0. */
  function Boundary(contents: string, position: int): (m: nat)
    requires 0 < position <= |contents|
    ensures m <= position - |RawCurrent(contents, position)|
    ensures m == 0 || contents[m] != ' '
    ensures forall t :: m < t <= position - |RawCurrent(contents, position)| ==> contents[t] == ' '
  {
    SkipSpace(contents, SkipNonSpace(contents, position - 1))
  }

  /** LAST before normalisation, read off at the boundary `m`. */
  function RawLast(contents: string, m: nat): (last: string)
    requires m < |contents|
    requires m == 0 || contents[m] != ' '
    // "(" or "" when the boundary is the first character ...
    ensures m == 0 ==> last == (if contents[0] == '(' then "(" else "")
    // ... and otherwise the word that ends at the boundary
    ensures m > 0 ==>
      && 0 < |last| <= m + 1
      && last == contents[m + 1 - |last|..m + 1]
      && SpaceOnlyInFront(last)
      && (|last| == m + 1 || last[0] == ' ')
    ensures EndsWith(last, ")") ==> contents[m] == ')'
  {
    if m == 0 then (if contents[0] == '(' then "(" else "")
    else contents[SkipNonSpace(contents, m)..m + 1]
  }

  /** The three scans of getWords, before any of the parenthesis rules. */
  function RawScan(contents: string, position: int): (sc: Scan)
    requires 0 <= position <= |contents|
    ensures position == 0 ==> sc == Scan(Words("", ""), -1)
    ensures position > 0 ==> 0 <= sc.marker < position
    ensures EndsWith(sc.words.last, ")") ==> position > 0 && contents[sc.marker] == ')'
  {
    if position == 0 then Scan(Words("", ""), -1)
    else
      var m := Boundary(contents, position);
      Scan(Words(RawCurrent(contents, position), RawLast(contents, m)), m)
  }

  /** Rule 1: a LAST that, trimmed, opens with '(' and is longer than "(" loses everything up to that '('. */
  function StripLastParen(last: string): (r: string)
    ensures StartsWith(Trim(last), "(") && |last| > 1 ==> r == last[LeadingWhite(last) + 1..]
    ensures !(StartsWith(Trim(last), "(") && |last| > 1) ==> r == last
  {
    if StartsWith(Trim(last), "(") && |last| > 1 then
      TrimIsLongestInnerInfix(last);
      assert last[LeadingWhite(last)] == '(';
      last[IndexOf(last, '(') + 1..]
    else last
  }

  /** Rule 2: a CURRENT that, trimmed, opens with '(' is trimmed and loses that '(', and LAST becomes "(". */
  function OpenParenCurrent(w: Words): Words {
    if StartsWith(Trim(w.current), "(") then Words(Trim(w.current)[1..], "(") else w
  }

  /** The words after rules 1 and 2. */
  function ParenStage(contents: string, position: int): (w: Words)
    requires 0 <= position <= |contents|
    ensures EndsWith(w.last, ")") ==> EndsWith(RawScan(contents, position).words.last, ")")
  {
    var raw := RawScan(contents, position).words;
    OpenParenCurrent(Words(raw.current, StripLastParen(raw.last)))
  }

  /**
   Rule 3: a LAST ending in ')' collapses to ")", or to ") " when the
   character at posMarker is ')'. The caller guarantees posMarker is in range
   whenever the rule fires.
   */
  function CloseParenLast(w: Words, contents: string, marker: int): Words
    requires EndsWith(w.last, ")") ==> 0 <= marker < |contents|
  {
    if EndsWith(w.last, ")") then
      Words(w.current, if contents[marker] == ')' then ") " else ")")
    else w
  }

  /** Rule 4: a CURRENT ending in ')' is cleared and LAST becomes ")". */
  function CloseParenCurrent(w: Words): Words {
    if EndsWith(w.current, ")") then Words("", ")") else w
  }

  /** getWords: the scans followed by the four rules in source order. */
  function GetWords(contents: string, position: int): (w: Words)
    requires 0 <= position <= |contents|
    ensures position == 0 ==> w == Words("", "")
    ensures !EndsWith(w.current, ")")
    // a LAST ending in ')' is collapsed: nothing before the parenthesis survives
    ensures EndsWith(w.last, ")") ==> w.last == ") " || w.last == ")"
    // the bare ")" arises only from rule 4, which also clears CURRENT
    ensures w.last == ")" ==> w.current == "" && EndsWith(ParenStage(contents, position).current, ")")
    // when rule 3 fires its boundary character is always the same ')', so the result is ") "
    ensures EndsWith(ParenStage(contents, position).last, ")") && !EndsWith(ParenStage(contents, position).current, ")") ==>
      w.last == ") "
    // rule 4 overrides everything before it
    ensures EndsWith(ParenStage(contents, position).current, ")") ==> w == Words("", ")")
  {
    var sc := RawScan(contents, position);
    CloseParenCurrent(CloseParenLast(ParenStage(contents, position), contents, sc.marker))
  }

  /** Rule 2 in terms of the raw CURRENT: LAST becomes "(" and CURRENT the trimmed text after the '(' unless rule 4 fires. */
  lemma OpenParenRule(contents: string, position: int)
    requires 0 <= position <= |contents|
    requires StartsWith(Trim(RawScan(contents, position).words.current), "(")
    ensures var rest := Trim(RawScan(contents, position).words.current)[1..];
      GetWords(contents, position) == if EndsWith(rest, ")") then Words("", ")") else Words(rest, "(")
  {
  }

  /** Rule 2 does not fire: CURRENT is kept and LAST is what rule 1 leaves. */
  lemma StagedWords(contents: string, position: int, raw: Words, stripped: string)
    requires 0 <= position <= |contents|
    requires RawScan(contents, position).words == raw
    requires StripLastParen(raw.last) == stripped && !StartsWith(Trim(raw.current), "(")
    ensures ParenStage(contents, position) == Words(raw.current, stripped)
  {
  }

  /** Rule 2 fires: LAST becomes "(" and CURRENT the trimmed rest after the '('. */
  lemma OpenParenStage(contents: string, position: int, raw: Words, rest: string)
    requires 0 <= position <= |contents|
    requires RawScan(contents, position).words == raw
    requires StartsWith(Trim(raw.current), "(") && rest == Trim(raw.current)[1..]
    ensures ParenStage(contents, position) == Words(rest, "(")
  {
  }

  /** Neither word ends in ')' after rules 1 and 2, so rules 3 and 4 change nothing. */
  lemma NoCloseParen(contents: string, position: int, w: Words)
    requires 0 <= position <= |contents|
    requires ParenStage(contents, position) == w
    requires !EndsWith(w.last, ")") && !EndsWith(w.current, ")")
    ensures GetWords(contents, position) == w
  {
  }

  /** Only LAST ends in ')': rule 3 turns it into ") ". */
  lemma LastCloses(contents: string, position: int, w: Words)
    requires 0 <= position <= |contents|
    requires ParenStage(contents, position) == w
    requires EndsWith(w.last, ")") && !EndsWith(w.current, ")")
    ensures GetWords(contents, position) == Words(w.current, ") ")
  {
  }

  /** CURRENT ends in ')': rule 4 gives ("", ")"). */
  lemma CurrentCloses(contents: string, position: int, w: Words)
    requires 0 <= position <= |contents|
    requires ParenStage(contents, position) == w
    requires EndsWith(w.current, ")")
    ensures GetWords(contents, position) == Words("", ")")
  {
  }

  /**
   The three while loops of getWords: posMarker moves left over the word
   being typed and then over the spaces in front of it, and startBefore moves
   left over the word before.
   */
  method ScanWords(contents: string, position: int) returns (current: string, last: string, posMarker: int)
    requires 0 <= position <= |contents|
    ensures Scan(Words(current, last), posMarker) == RawScan(contents, position)
  {
    posMarker := position - 1;
    if position == 0 {
      current, last := "", "";
      return;
    }
    while posMarker > 0 && contents[posMarker] != ' '
      invariant 0 <= posMarker <= position - 1
      invariant SkipNonSpace(contents, posMarker) == SkipNonSpace(contents, position - 1)
    {
      posMarker := posMarker - 1;
    }
    current := contents[posMarker..position];
    ghost var k := posMarker;
    while posMarker > 0 && contents[posMarker] == ' '
      invariant 0 <= posMarker <= k
      invariant SkipSpace(contents, posMarker) == SkipSpace(contents, k)
    {
      posMarker := posMarker - 1;
    }
    var startBefore := posMarker;
    while startBefore > 0 && contents[startBefore] != ' '
      invariant 0 <= startBefore <= posMarker
      invariant SkipNonSpace(contents, startBefore) == SkipNonSpace(contents, posMarker)
    {
      startBefore := startBefore - 1;
    }
    if posMarker == 0 {
      if contents[0] == '(' {
        last := "(";
      } else {
        last := "";
      }
    } else {
      last := contents[startBefore..posMarker + 1];
    }
  }

  /** getWords as the source writes it: the scans, then the four rules as successive updates. */
  method ComputeWords(contents: string, position: int) returns (current: string, last: string)
    requires 0 <= position <= |contents|
    ensures Words(current, last) == GetWords(contents, position)
  {
    var posMarker;
    current, last, posMarker := ScanWords(contents, position);
    if StartsWith(Trim(last), "(") && |last| > 1 {
      last := last[IndexOf(last, '(') + 1..];
    }
    if StartsWith(Trim(current), "(") {
      current := Trim(current);
      current := current[1..];
      last := "(";
    }
    assert Words(current, last) == ParenStage(contents, position);
    if EndsWith(last, ")") {
      last := ")";
      if contents[posMarker] == ')' {
        last := ") ";
      }
    }
    if EndsWith(current, ")") {
      last := ")";
      current := "";
    }
  }
}
