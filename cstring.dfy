/**
 * The string comparison the list is ordered by: C's `strcmp` (section
 * 7.24.4.2 of ISO/IEC 9899:2011). A C string is modelled by the characters
 * before its terminating null, so a `string` here never holds the terminator
 * and the end of the sequence plays its part.
 */
module CString {

  /** `strcmp(a, b)`: only the sign of the C result is specified, so the model
      returns -1, 0 or 1. Characters compare by their codes; a proper prefix
      compares less, because its terminator meets a non-null character. */
  function Strcmp(a: string, b: string): (r: int)
    ensures -1 <= r <= 1
    ensures r == 0 <==> a == b
  {
    if a == [] then (if b == [] then 0 else -1)
    else if b == [] then 1
    else if a[0] < b[0] then -1
    else if a[0] > b[0] then 1
    else
      assert a == [a[0]] + a[1..] && b == [b[0]] + b[1..];
      Strcmp(a[1..], b[1..])
  }

  /** `a` sorts strictly before `b`. */
  predicate Less(a: string, b: string) {
    Strcmp(a, b) < 0
  }

  /** The ordering the C standard describes: `a` is a proper prefix of `b`,
      or the first pair of characters that differ has the smaller one in `a`. */
  ghost predicate LexLess(a: string, b: string) {
    (|a| < |b| && a == b[..|a|]) ||
    (exists k :: 0 <= k < |a| && k < |b| && a[..k] == b[..k] && a[k] < b[k])
  }

  /** Swapping the arguments of strcmp flips the sign of its result. */
  lemma {:induction false} StrcmpAntisymmetric(a: string, b: string)
    ensures Strcmp(b, a) == -Strcmp(a, b)
  {
    if a != [] && b != [] && a[0] == b[0] {
      StrcmpAntisymmetric(a[1..], b[1..]);
    }
  }

  /** Two different strings are ordered one way or the other. */
  lemma LessTotal(a: string, b: string)
    requires a != b
    ensures Less(a, b) != Less(b, a)
  {
    StrcmpAntisymmetric(a, b);
  }

  /** The strcmp order is transitive. */
  lemma {:induction false} LessTransitive(a: string, b: string, c: string)
    requires Less(a, b) && Less(b, c)
    ensures Less(a, c)
  {
    if a != [] && b != [] && c != [] && a[0] == b[0] && b[0] == c[0] {
      LessTransitive(a[1..], b[1..], c[1..]);
    }
  }

  /** The recursive comparison agrees with the standard's description. */
  lemma {:induction false} LessIsLexLess(a: string, b: string)
    ensures Less(a, b) <==> LexLess(a, b)
  {
    if a == [] || b == [] {
    } else if a[0] < b[0] {
      assert a[..0] == b[..0];
      assert LexLess(a, b);
    } else if a[0] > b[0] {
      if LexLess(a, b) {
        if !(|a| < |b| && a == b[..|a|]) {
          var k :| 0 <= k < |a| && k < |b| && a[..k] == b[..k] && a[k] < b[k];
        }
      }
    } else {
      LessIsLexLess(a[1..], b[1..]);
      if LexLess(a[1..], b[1..]) {
        if |a[1..]| < |b[1..]| && a[1..] == b[1..][..|a[1..]|] {
          assert a == [a[0]] + a[1..] && b[..|a|] == [b[0]] + b[1..][..|a[1..]|];
        } else {
          var k :| 0 <= k < |a[1..]| && k < |b[1..]| && a[1..][..k] == b[1..][..k] && a[1..][k] < b[1..][k];
          assert a[..k + 1] == [a[0]] + a[1..][..k] && b[..k + 1] == [b[0]] + b[1..][..k];
        }
      }
      if LexLess(a, b) {
        if |a| < |b| && a == b[..|a|] {
          assert a[1..] == b[1..][..|a[1..]|];
        } else {
          var k :| 0 <= k < |a| && k < |b| && a[..k] == b[..k] && a[k] < b[k];
          assert k > 0;
          assert a[1..][..k - 1] == a[..k][1..] && b[1..][..k - 1] == b[..k][1..];
          assert a[1..][k - 1] < b[1..][k - 1];
        }
      }
    }
  }

  /** A proper prefix compares less than the longer string. */
  lemma ProperPrefixIsLess(a: string, b: string)
    requires |a| < |b| && a == b[..|a|]
    ensures Less(a, b)
  {
    LessIsLexLess(a, b);
  }
}
