/**
 The handful of java.lang.String operations the content-assist engine uses,
 stated over ASCII: trim(), toLowerCase(), equalsIgnoreCase(), startsWith(),
 endsWith(), contains(), indexOf() and lastIndexOf().
 */
module Text {

  /** trim() removes every leading and trailing character whose code is at most U+0020. */
  predicate IsWhite(c: char) {
    c as int <= 0x20
  }

  predicate StartsWith(s: string, prefix: string) {
    |prefix| <= |s| && s[..|prefix|] == prefix
  }

  predicate EndsWith(s: string, suffix: string) {
    |suffix| <= |s| && s[|s| - |suffix|..] == suffix
  }

  /** The number of white characters in front of the first non-white one. */
  function LeadingWhite(s: string): (n: nat)
    ensures n <= |s|
    ensures forall k :: 0 <= k < n ==> IsWhite(s[k])
    ensures n == |s| || !IsWhite(s[n])
  {
    if |s| > 0 && IsWhite(s[0]) then 1 + LeadingWhite(s[1..]) else 0
  }

  /** Where the text ends once trailing white characters are dropped. */
  function TrimmedEnd(s: string): (e: nat)
    ensures e <= |s|
    ensures forall k :: e <= k < |s| ==> IsWhite(s[k])
    ensures e == 0 || !IsWhite(s[e - 1])
  {
    if |s| > 0 && IsWhite(s[|s| - 1]) then TrimmedEnd(s[..|s| - 1]) else |s|
  }

  /** Java's String.trim(): `s` without its leading and trailing white characters. */
  function Trim(s: string): string {
    if LeadingWhite(s) == |s| then [] else s[LeadingWhite(s)..TrimmedEnd(s)]
  }

  /** trim() yields the longest infix that neither starts nor ends with a white character. */
  lemma TrimIsLongestInnerInfix(s: string)
    ensures LeadingWhite(s) + |Trim(s)| <= |s|
    ensures Trim(s) == s[LeadingWhite(s)..LeadingWhite(s) + |Trim(s)|]
    ensures forall k :: LeadingWhite(s) + |Trim(s)| <= k < |s| ==> IsWhite(s[k])
    ensures Trim(s) == [] || (!IsWhite(Trim(s)[0]) && !IsWhite(Trim(s)[|Trim(s)| - 1]))
  {
    var n, e := LeadingWhite(s), TrimmedEnd(s);
    if n == |s| {
      assert Trim(s) == [];
    } else {
      assert n < e;
      var t := s[n..e];
      assert Trim(s) == t;
      assert t[0] == s[n] && t[|t| - 1] == s[e - 1];
    }
  }

  /** Character.toLowerCase restricted to ASCII: only 'A'..'Z' change. */
  function LowerChar(c: char): char {
    if 'A' <= c <= 'Z' then (c as int + 32) as char else c
  }

  /** String.toLowerCase(), character by character. */
  function Lower(s: string): (r: string)
    ensures |r| == |s|
    ensures forall k :: 0 <= k < |s| ==> r[k] == LowerChar(s[k])
  {
    seq(|s|, k requires 0 <= k < |s| => LowerChar(s[k]))
  }

  /** String.equalsIgnoreCase(): same length and equal after folding case. */
  predicate EqualsIgnoreCase(a: string, b: string) {
    |a| == |b| && Lower(a) == Lower(b)
  }

  /** String.indexOf(char): the first index holding `c`, or -1 when there is none. */
  function IndexOf(s: string, c: char): (r: int)
    ensures -1 <= r < |s|
    ensures r == -1 <==> c !in s
    ensures r >= 0 ==> s[r] == c
    ensures forall k :: 0 <= k < r ==> s[k] != c
  {
    if |s| == 0 then -1
    else if s[0] == c then 0
    else
      var k := IndexOf(s[1..], c);
      if k < 0 then -1 else k + 1
  }

  /** String.lastIndexOf(char): the last index holding `c`, or -1 when there is none. */
  function LastIndexOf(s: string, c: char): (r: int)
    ensures -1 <= r < |s|
    ensures r == -1 <==> c !in s
    ensures r >= 0 ==> s[r] == c
    ensures forall k :: r < k < |s| ==> s[k] != c
  {
    if |s| == 0 then -1
    else if s[|s| - 1] == c then |s| - 1
    else
      var init := s[..|s| - 1];
      assert s == init + [s[|s| - 1]];
      LastIndexOf(init, c)
  }

  /** trim() leaves a string alone when it neither starts nor ends with a white character. */
  lemma TrimUnchanged(s: string)
    requires s == [] || (!IsWhite(s[0]) && !IsWhite(s[|s| - 1]))
    ensures Trim(s) == s
  {
    if s != [] {
      assert LeadingWhite(s) == 0;
      assert TrimmedEnd(s) == |s|;
    }
  }
}
