/**
  PHP strings are byte strings. A `PhpString` is a sequence of characters
  each below 256, so that string literals can be written directly.

  This module also models PHP's `explode` and `join` (alias `implode`),
  which the adapter uses to split paths on "/" and content types on "; ",
  and proves that `explode` is the unique inverse of `join` for the
  separators the adapter uses.
 */
module PhpStrings {

  type Byte = c: char | c as int < 256
  type PhpString = seq<Byte>

  datatype Option<+T> = None | Some(value: T)

  /** PHP's conversion of a possibly-null value to a string: null becomes "". */
  function OrEmpty(s: Option<PhpString>): PhpString {
    if s.Some? then s.value else ""
  }

  /** PHP's `empty()` on a string: true for "" and for "0". */
  predicate PhpEmpty(s: PhpString) {
    s == "" || s == "0"
  }

  /** `sep` occurs in `s` starting at index `k`. */
  predicate Occurs<T(==)>(sep: seq<T>, s: seq<T>, k: int) {
    0 <= k && k + |sep| <= |s| && s[k..k + |sep|] == sep
  }

  /** `s` contains no occurrence of the non-empty separator `sep`. */
  predicate Free<T(==)>(sep: seq<T>, s: seq<T>) {
    forall k :: 0 <= k < |s| ==> !Occurs(sep, s, k)
  }

  /**
    The first character of `sep` appears nowhere else in it. Both "/" and
    "; " have this property; it rules out overlapping occurrences, so that
    splitting a string on `sep` is unambiguous.
   */
  predicate FirstCharUnique<T(==)>(sep: seq<T>) {
    |sep| > 0 && forall i :: 0 < i < |sep| ==> sep[i] != sep[0]
  }

  /**
    PHP's `explode(sep, s)` for a non-empty separator: the pieces of `s`
    between the occurrences of `sep`, scanning left to right. The empty
    string gives one empty piece.
   */
  function Explode<T(==)>(sep: seq<T>, s: seq<T>): (pieces: seq<seq<T>>)
    requires |sep| > 0
    ensures |pieces| >= 1
    decreases |s|
  {
    if |s| < |sep| then [s]
    else if s[..|sep|] == sep then [[]] + Explode(sep, s[|sep|..])
    else
      var rest := Explode(sep, s[1..]);
      [[s[0]] + rest[0]] + rest[1..]
  }

  /** PHP's `join(sep, pieces)`. */
  function Join<T>(sep: seq<T>, pieces: seq<seq<T>>): seq<T>
    decreases |pieces|
  {
    if |pieces| == 0 then []
    else if |pieces| == 1 then pieces[0]
    else pieces[0] + sep + Join(sep, pieces[1..])
  }

  lemma OccursShift<T>(sep: seq<T>, s: seq<T>, k: int)
    requires |s| > 0 && k >= 1
    ensures Occurs(sep, s, k) <==> Occurs(sep, s[1..], k - 1)
  {
    if k + |sep| <= |s| {
      assert s[1..][k - 1..k - 1 + |sep|] == s[k..k + |sep|];
    }
  }

  /**
    What `explode` does at the first occurrence of `sep` in `s`: its first
    piece is the text before that occurrence (all of `s` when there is
    none), and its remaining pieces are those of the text after it.
   */
  predicate SplitsAtFirst<T(==)>(sep: seq<T>, s: seq<T>, pieces: seq<seq<T>>)
    requires |sep| > 0
  {
    && |pieces| >= 1
    && |pieces[0]| <= |s|
    && pieces[0] == s[..|pieces[0]|]
    && (forall k :: 0 <= k < |pieces[0]| ==> !Occurs(sep, s, k))
    && (|pieces[0]| < |s| ==>
          Occurs(sep, s, |pieces[0]|) && pieces[1..] == Explode(sep, s[|pieces[0]| + |sep|..]))
    && (|pieces[0]| == |s| ==> |pieces| == 1)
  }

  lemma {:induction false} ExplodeFirst<T>(sep: seq<T>, s: seq<T>)
    requires |sep| > 0
    ensures SplitsAtFirst(sep, s, Explode(sep, s))
    decreases |s|
  {
    if |s| < |sep| {
    } else if s[..|sep|] == sep {
      assert Occurs(sep, s, 0);
    } else {
      var rest := Explode(sep, s[1..]);
      ExplodeFirst(sep, s[1..]);
      ExplodeFirstStep(sep, s, rest, Explode(sep, s));
    }
  }

  /**
    The step of ExplodeFirst when `s` does not start with `sep`: the first
    piece grows by the first character of `s` and the other pieces stay.
   */
  lemma ExplodeFirstStep<T>(sep: seq<T>, s: seq<T>, rest: seq<seq<T>>, pieces: seq<seq<T>>)
    requires |sep| > 0 && |s| >= |sep| && !Occurs(sep, s, 0)
    requires SplitsAtFirst(sep, s[1..], rest)
    requires pieces == [[s[0]] + rest[0]] + rest[1..]
    ensures SplitsAtFirst(sep, s, pieces)
  {
    var m := |rest[0]| + 1;
    FirstPieceGrows(sep, s, rest[0]);
    assert pieces[0] == [s[0]] + rest[0];
    assert pieces[1..] == rest[1..];
    if m < |s| {
      OccursShift(sep, s, m);
      assert s[1..][m - 1 + |sep|..] == s[m + |sep|..];
    }
  }

  /** Prepending a character that starts no occurrence to a separator-free prefix. */
  lemma FirstPieceGrows<T>(sep: seq<T>, s: seq<T>, p: seq<T>)
    requires |s| > 0 && !Occurs(sep, s, 0)
    requires |p| <= |s| - 1 && p == s[1..][..|p|]
    requires forall k :: 0 <= k < |p| ==> !Occurs(sep, s[1..], k)
    ensures [s[0]] + p == s[..|p| + 1]
    ensures forall k :: 0 <= k < |p| + 1 ==> !Occurs(sep, s, k)
  {
    forall k | 0 < k < |p| + 1
      ensures !Occurs(sep, s, k)
    {
      OccursShift(sep, s, k);
    }
  }

  /** Joining the pieces of `explode` gives back the original string. */
  lemma {:induction false} JoinExplode<T>(sep: seq<T>, s: seq<T>)
    requires |sep| > 0
    ensures Join(sep, Explode(sep, s)) == s
    decreases |s|
  {
    ExplodeFirst(sep, s);
    var pieces := Explode(sep, s);
    var m := |pieces[0]|;
    if m < |s| {
      var tail := s[m + |sep|..];
      JoinExplode(sep, tail);
      assert pieces == [pieces[0]] + Explode(sep, tail);
      assert s == s[..m] + sep + tail by {
        assert s[m..m + |sep|] == sep;
      }
    }
  }

  /** No piece of `explode` contains the separator. */
  lemma {:induction false} ExplodeFree<T>(sep: seq<T>, s: seq<T>)
    requires |sep| > 0
    ensures forall i :: 0 <= i < |Explode(sep, s)| ==> Free(sep, Explode(sep, s)[i])
    decreases |s|
  {
    ExplodeFirst(sep, s);
    var pieces := Explode(sep, s);
    var m := |pieces[0]|;
    forall k | 0 <= k < |pieces[0]| && k + |sep| <= |pieces[0]|
      ensures !Occurs(sep, pieces[0], k)
    {
      assert !Occurs(sep, s, k);
      assert pieces[0][k..k + |sep|] == s[k..k + |sep|];
    }
    if m < |s| {
      ExplodeFree(sep, s[m + |sep|..]);
      assert forall i :: 1 <= i < |pieces| ==> pieces[i] == pieces[1..][i - 1];
    }
  }

  /** `join` over a concatenation of two non-empty lists of pieces. */
  lemma {:induction false} JoinAppend<T>(sep: seq<T>, ps: seq<seq<T>>, qs: seq<seq<T>>)
    requires |ps| >= 1 && |qs| >= 1
    ensures Join(sep, ps + qs) == Join(sep, ps) + sep + Join(sep, qs)
    decreases |ps|
  {
    if |ps| == 1 {
      assert (ps + qs)[1..] == qs;
    } else {
      JoinAppend(sep, ps[1..], qs);
      assert (ps + qs)[1..] == ps[1..] + qs;
    }
  }

  /**
    Uniqueness: for a separator without overlapping occurrences, `explode`
    recovers every list of separator-free pieces from their `join`.
    Together with JoinExplode and ExplodeFree this says that the pieces of
    `explode` are exactly the `sep`-separated parts of the string.
   */
  lemma {:induction false} ExplodeJoin<T>(sep: seq<T>, ps: seq<seq<T>>)
    requires FirstCharUnique(sep)
    requires |ps| >= 1
    requires forall i :: 0 <= i < |ps| ==> Free(sep, ps[i])
    ensures Explode(sep, Join(sep, ps)) == ps
    decreases |ps|
  {
    var s := Join(sep, ps);
    ExplodeFirst(sep, s);
    var m := |Explode(sep, s)[0]|;
    if |ps| == 1 {
      assert s == ps[0];
      assert m == |s| && s[..m] == s;
      assert Explode(sep, s) == [Explode(sep, s)[0]];
    } else {
      var p := ps[0];
      var t := Join(sep, ps[1..]);
      assert s == p + sep + t;
      assert Occurs(sep, s, |p|) by {
        assert s[|p|..|p| + |sep|] == sep;
      }
      forall k | 0 <= k < |p|
        ensures !Occurs(sep, s, k)
      {
        NoOccurrenceBefore(sep, p, t, k);
      }
      assert m == |p|;
      assert s[m + |sep|..] == t;
      ExplodeJoin(sep, ps[1..]);
      assert Explode(sep, s)[0] == p by {
        assert s[..|p|] == p;
      }
      assert Explode(sep, s)[1..] == ps[1..];
      assert Explode(sep, s) == [Explode(sep, s)[0]] + Explode(sep, s)[1..];
      assert ps == [p] + ps[1..];
    }
  }

  /**
    In `p + sep + t` with `p` free of `sep`, no occurrence of `sep` starts
    inside `p`: one lying wholly inside `p` is excluded by freeness, one
    straddling the end of `p` because the first character of `sep` does
    not recur in it.
   */
  lemma NoOccurrenceBefore<T>(sep: seq<T>, p: seq<T>, t: seq<T>, k: int)
    requires FirstCharUnique(sep) && Free(sep, p)
    requires 0 <= k < |p|
    ensures !Occurs(sep, p + sep + t, k)
  {
    var s := p + sep + t;
    if k + |sep| <= |p| {
      assert !Occurs(sep, p, k);
      assert p[k..k + |sep|] == s[k..k + |sep|];
    } else {
      var d := |p| - k;
      assert 0 < d < |sep|;
      assert s[k..k + |sep|][d] == sep[0] != sep[d];
    }
  }

  /** Splitting `a + sep + b` splits `a` and `b` separately. */
  lemma ExplodeConcat<T>(sep: seq<T>, a: seq<T>, b: seq<T>)
    requires FirstCharUnique(sep)
    ensures Explode(sep, a + sep + b) == Explode(sep, a) + Explode(sep, b)
  {
    var pa, pb := Explode(sep, a), Explode(sep, b);
    JoinExplode(sep, a);
    JoinExplode(sep, b);
    ExplodeFree(sep, a);
    ExplodeFree(sep, b);
    JoinAppend(sep, pa, pb);
    ExplodeJoin(sep, pa + pb);
  }

  /** A one-character separator is absent exactly when that character is. */
  lemma SingleCharFree<T>(c: T, s: seq<T>)
    ensures Free([c], s) <==> c !in s
  {
    if c in s {
      var k :| 0 <= k < |s| && s[k] == c;
      assert Occurs([c], s, k);
    }
    forall k | Occurs([c], s, k)
      ensures c in s
    {
      assert s[k] == c;
    }
  }
}
