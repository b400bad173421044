/**
 String.CASE_INSENSITIVE_ORDER and the Collections.sort call that orders the
 feature names offered in an operand position.
 */
module CaseInsensitiveOrder {
  import opened Text

  /**
   The order of String.compareTo on character codes: the first differing
   character decides, and when one string is a prefix of the other the
   shorter one comes first.
   */
  predicate LexLessEq(a: string, b: string) {
    |a| == 0 || (|b| > 0 && (a[0] < b[0] || (a[0] == b[0] && LexLessEq(a[1..], b[1..]))))
  }

  /** CASE_INSENSITIVE_ORDER: compare after folding every character to lower case. */
  predicate CILessEq(a: string, b: string) {
    LexLessEq(Lower(a), Lower(b))
  }

  lemma {:induction false} LexTotal(a: string, b: string)
    ensures LexLessEq(a, b) || LexLessEq(b, a)
  {
    if |a| > 0 && |b| > 0 && a[0] == b[0] {
      LexTotal(a[1..], b[1..]);
    }
  }

  lemma {:induction false} LexTransitive(a: string, b: string, c: string)
    requires LexLessEq(a, b) && LexLessEq(b, c)
    ensures LexLessEq(a, c)
  {
    if |a| > 0 && a[0] == b[0] && b[0] == c[0] {
      LexTransitive(a[1..], b[1..], c[1..]);
    }
  }

  lemma {:induction false} LexAntisymmetric(a: string, b: string)
    requires LexLessEq(a, b) && LexLessEq(b, a)
    ensures a == b
  {
    if |a| > 0 {
      LexAntisymmetric(a[1..], b[1..]);
      assert a == [a[0]] + a[1..];
      assert b == [b[0]] + b[1..];
    }
  }

  /** The first position where two strings differ decides their order. */
  lemma {:induction false} LexDecidedAt(a: string, b: string, k: nat)
    requires k < |a| && k < |b| && a[..k] == b[..k] && a[k] != b[k]
    ensures LexLessEq(a, b) <==> a[k] < b[k]
  {
    if k > 0 {
      assert a[0] == a[..k][0] == b[..k][0] == b[0];
      assert a[1..][..k - 1] == a[1..k] == a[..k][1..];
      assert b[1..][..k - 1] == b[1..k] == b[..k][1..];
      LexDecidedAt(a[1..], b[1..], k - 1);
    }
  }

  lemma CITotal(a: string, b: string)
    ensures CILessEq(a, b) || CILessEq(b, a)
  {
    LexTotal(Lower(a), Lower(b));
  }

  lemma CITransitive(a: string, b: string, c: string)
    requires CILessEq(a, b) && CILessEq(b, c)
    ensures CILessEq(a, c)
  {
    LexTransitive(Lower(a), Lower(b), Lower(c));
  }

  /** Two names the order cannot tell apart differ at most in the case of their letters. */
  lemma CITiesAgreeIgnoringCase(a: string, b: string)
    requires CILessEq(a, b) && CILessEq(b, a)
    ensures EqualsIgnoreCase(a, b)
  {
    LexAntisymmetric(Lower(a), Lower(b));
  }

  predicate SortedCI(s: seq<string>) {
    forall i, j :: 0 <= i < j < |s| ==> CILessEq(s[i], s[j])
  }

  /** Puts `x` in front of the first element it does not follow, so that earlier equals stay first. */
  function InsertCI(x: string, s: seq<string>): (r: seq<string>)
    requires SortedCI(s)
    ensures SortedCI(r)
    ensures multiset(r) == multiset(s) + multiset{x}
  {
    if |s| == 0 then [x]
    else if CILessEq(x, s[0]) then
      InsertInFrontSorted(x, s);
      [x] + s
    else
      CITotal(x, s[0]);
      var rest := InsertCI(x, s[1..]);
      InsertBehindSorted(s[0], rest, x, s[1..]);
      assert s == [s[0]] + s[1..];
      [s[0]] + rest
  }

  lemma InsertInFrontSorted(x: string, s: seq<string>)
    requires SortedCI(s) && |s| > 0 && CILessEq(x, s[0])
    ensures SortedCI([x] + s)
  {
    forall j | 0 < j < |s| ensures CILessEq(x, s[j]) {
      CITransitive(x, s[0], s[j]);
    }
  }

  lemma InsertBehindSorted(y: string, rest: seq<string>, x: string, tail: seq<string>)
    requires SortedCI(rest) && SortedCI([y] + tail)
    requires CILessEq(y, x)
    requires multiset(rest) == multiset(tail) + multiset{x}
    ensures SortedCI([y] + rest)
  {
    forall j | 0 <= j < |rest| ensures CILessEq(y, rest[j]) {
      assert rest[j] in multiset(rest);
      if rest[j] != x {
        assert rest[j] in multiset(tail);
        var k :| 0 <= k < |tail| && tail[k] == rest[j];
        assert ([y] + tail)[0] == y && ([y] + tail)[k + 1] == tail[k];
        assert CILessEq(([y] + tail)[0], ([y] + tail)[k + 1]);
      }
    }
  }

  /** Collections.sort(list, CASE_INSENSITIVE_ORDER): a sorted permutation of the input. */
  function SortCI(xs: seq<string>): (r: seq<string>)
    ensures SortedCI(r)
    ensures multiset(r) == multiset(xs)
    ensures |r| == |xs|
  {
    if |xs| == 0 then []
    else
      assert xs == [xs[0]] + xs[1..];
      InsertCI(xs[0], SortCI(xs[1..]))
  }
}
