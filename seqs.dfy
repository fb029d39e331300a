/** Sequence filtering: the rows a `WHERE` clause keeps from a table scan. */
module Seqs {

  /** The elements of `s` that satisfy `p`, in their original order. */
  function Where<T(==,!new)>(s: seq<T>, p: T -> bool): (r: seq<T>)
    ensures |r| <= |s|
    ensures forall x :: x in r <==> x in s && p(x)
  {
    if s == [] then [] else (if p(s[0]) then [s[0]] else []) + Where(s[1..], p)
  }

  /** A filter keeps each qualifying element as often as it occurs, and no other element. */
  lemma {:induction false} WhereCounts<T(!new)>(s: seq<T>, p: T -> bool)
    ensures forall x :: multiset(Where(s, p))[x] == if p(x) then multiset(s)[x] else 0
  {
    if s != [] {
      assert s == [s[0]] + s[1..];
      WhereCounts(s[1..], p);
    }
  }

  /** Filtering a table that grew by one row at its end. */
  lemma {:induction false} WhereAppend<T(!new)>(s: seq<T>, x: T, p: T -> bool)
    ensures Where(s + [x], p) == Where(s, p) + (if p(x) then [x] else [])
  {
    WhereConcat(s, [x], p);
    assert Where([x], p) == (if p(x) then [x] else []) + Where([x][1..], p);
    assert [x][1..] == [];
  }

  /** Filtering distributes over concatenation, so a filter of a prefix is a prefix of the filter. */
  lemma {:induction false} WhereConcat<T(!new)>(s: seq<T>, u: seq<T>, p: T -> bool)
    ensures Where(s + u, p) == Where(s, p) + Where(u, p)
  {
    if s == [] {
      assert s + u == u;
    } else {
      var head := if p(s[0]) then [s[0]] else [];
      calc {
        Where(s + u, p);
        { assert (s + u)[0] == s[0] && (s + u)[1..] == s[1..] + u; }
        head + Where(s[1..] + u, p);
        { WhereConcat(s[1..], u, p); }
        head + (Where(s[1..], p) + Where(u, p));
        (head + Where(s[1..], p)) + Where(u, p);
        Where(s, p) + Where(u, p);
      }
    }
  }

  /** The last element a filter keeps is `s[j]`, the last qualifying element of `s`. */
  lemma {:induction false} WhereLast<T(!new)>(s: seq<T>, p: T -> bool) returns (j: nat)
    requires Where(s, p) != []
    ensures j < |s| && s[j] == Where(s, p)[|Where(s, p)| - 1] && p(s[j])
    ensures forall m :: j < m < |s| ==> !p(s[m])
  {
    var rest := Where(s[1..], p);
    if rest != [] {
      var i := WhereLast(s[1..], p);
      j := i + 1;
      assert s[j] == s[1..][i];
      forall m | j < m < |s| ensures !p(s[m]) {
        assert s[m] == s[1..][m - 1];
      }
    } else {
      j := 0;
      assert Where(s, p) == [s[0]];
      forall m | 0 < m < |s| ensures !p(s[m]) {
        assert s[m] in s[1..];
      }
    }
  }

  /** A filter keeps nothing when no element qualifies. */
  lemma WhereNone<T(!new)>(s: seq<T>, p: T -> bool)
    requires forall x :: x in s ==> !p(x)
    ensures Where(s, p) == []
  {
  }
}
