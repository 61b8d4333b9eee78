/**
 * Substring search on names, as the product listing uses it: exact
 * ("contains") and ignoring case (Prisma's mode 'insensitive').
 * Case folding covers the ASCII letters only.
 */
module Text {

  /** q occurs in s as a contiguous piece. */
  predicate Contains(s: string, q: string)
    decreases |s|
  {
    q <= s || (|s| > 0 && Contains(s[1..], q))
  }

  function LowerChar(c: char): (d: char)
    ensures 'A' <= c <= 'Z' ==> d as int == c as int + 32
    ensures !('A' <= c <= 'Z') ==> d == c
  {
    if 'A' <= c <= 'Z' then (c as int + 32) as char else c
  }

  function Lower(s: string): (r: string)
    ensures |r| == |s|
    ensures forall i :: 0 <= i < |s| ==> r[i] == LowerChar(s[i])
  {
    seq(|s|, i requires 0 <= i < |s| => LowerChar(s[i]))
  }

  predicate ContainsIgnoringCase(s: string, q: string)
  {
    Contains(Lower(s), Lower(q))
  }

  /** Contains holds exactly when q starts at some position of s. */
  lemma {:induction false} ContainsIffOccurs(s: string, q: string)
    ensures Contains(s, q) <==> exists i :: 0 <= i <= |s| && q <= s[i..]
    decreases |s|
  {
    if q <= s {
      assert s[0..] == s;
    } else if |s| == 0 {
      assert forall i :: 0 <= i <= |s| ==> s[i..] == s;
    } else {
      ContainsIffOccurs(s[1..], q);
      if exists i :: 0 <= i <= |s| && q <= s[i..] {
        var i :| 0 <= i <= |s| && q <= s[i..];
        assert i != 0 by { assert s[0..] == s; }
        assert s[1..][i - 1..] == s[i..];
      }
      if Contains(s[1..], q) {
        var i :| 0 <= i <= |s[1..]| && q <= s[1..][i..];
        assert s[1..][i..] == s[i + 1..];
      }
    }
  }

  /** The empty query occurs in every name. */
  lemma EmptyQueryAlwaysContained(s: string)
    ensures Contains(s, [])
    ensures ContainsIgnoringCase(s, [])
  {
    assert Lower([]) == [];
  }

  /** A name that contains q exactly also contains it when case is ignored. */
  lemma {:induction false} ContainsImpliesIgnoringCase(s: string, q: string)
    requires Contains(s, q)
    ensures ContainsIgnoringCase(s, q)
  {
    ContainsIffOccurs(s, q);
    var i :| 0 <= i <= |s| && q <= s[i..];
    var ls, lq := Lower(s), Lower(q);
    assert lq <= ls[i..] by {
      assert |lq| <= |ls[i..]|;
      forall j | 0 <= j < |lq| ensures lq[j] == ls[i..][j] {
        assert q[j] == s[i..][j] == s[i + j];
      }
    }
    ContainsIffOccurs(ls, lq);
  }

  /** Lowering twice is lowering once. */
  lemma {:induction false} LowerIdempotent(s: string)
    ensures Lower(Lower(s)) == Lower(s)
  {
    forall i | 0 <= i < |s| ensures Lower(Lower(s))[i] == Lower(s)[i] {
      assert Lower(Lower(s))[i] == LowerChar(LowerChar(s[i]));
    }
  }

  /**
   * Matching ignoring case does not see case at all: lowering the name or the
   * query first changes nothing, so two names (or two queries) that differ
   * only in the case of ASCII letters match alike.
   */
  lemma CaseDoesNotMatter(s: string, q: string)
    ensures ContainsIgnoringCase(Lower(s), q) == ContainsIgnoringCase(s, q)
    ensures ContainsIgnoringCase(s, Lower(q)) == ContainsIgnoringCase(s, q)
  {
    LowerIdempotent(s);
    LowerIdempotent(q);
  }

  /** Names, and queries, that agree up to the case of ASCII letters match alike. */
  lemma {:induction false} SameUpToCase(s: string, t: string, q: string, u: string)
    requires Lower(s) == Lower(t) && Lower(q) == Lower(u)
    ensures ContainsIgnoringCase(s, q) == ContainsIgnoringCase(t, u)
  {
  }
}
