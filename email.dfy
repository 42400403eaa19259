/** The email shape test of the roster's validation: the unanchored regular
    expression `\S+@\S+\.\S+` applied with `RegExp.prototype.test`. The
    pattern's meaning is stated as a ghost predicate (some substring splits
    into the five parts of the pattern); `HasEmailShape` is a left-to-right
    scan, and `HasEmailShapeIff` proves the two agree on every string. */
module EmailShape {
  import opened Text

  /** `s[i..j]` is a match of `\S+`: non-empty, without white space. */
  ghost predicate NonSpaceRun(s: string, i: int, j: int)
    requires 0 <= i <= j <= |s|
  {
    i < j && forall k :: i <= k < j ==> !IsSpace(s[k])
  }

  /** `s[i..j]` matches `\S+@\S+\.\S+` with the `@` at `a` and the `.` at `d`. */
  ghost predicate MatchAt(s: string, i: int, a: int, d: int, j: int) {
    && 0 <= i < a && a + 1 < d && d + 1 < j <= |s|
    && NonSpaceRun(s, i, a) && s[a] == '@'
    && NonSpaceRun(s, a + 1, d) && s[d] == '.'
    && NonSpaceRun(s, d + 1, j)
  }

  /** `/\S+@\S+\.\S+/.test(s)`: the pattern matches somewhere in `s`. */
  ghost predicate MatchesPattern(s: string) {
    exists i, a, d, j :: MatchAt(s, i, a, d, j)
  }

  /** A `.` at `d >= k`, with no white space in `s[k..d]` and a non-space
      character right after the `.`. */
  ghost predicate DotAt(s: string, k: int, d: int) {
    && 0 <= k <= d && d + 1 < |s| && s[d] == '.' && !IsSpace(s[d + 1])
    && forall m :: k <= m < d ==> !IsSpace(s[m])
  }

  /** Some `d` satisfies `DotAt(s, k, d)`. */
  ghost predicate DotFollows(s: string, k: int) {
    exists d :: DotAt(s, k, d)
  }

  /** An `@` at `a >= a0` with a non-space character on each side and a
      suitable `.` further along the same non-space run. */
  ghost predicate AtAt(s: string, a0: int, a: int) {
    && 0 < a0 <= a && a + 1 < |s| && s[a] == '@'
    && !IsSpace(s[a - 1]) && !IsSpace(s[a + 1])
    && DotFollows(s, a + 2)
  }

  /** Scans the non-space run from `k` for a `.` followed by a non-space character. */
  function DotFrom(s: string, k: nat): bool
    decreases |s| - k
  {
    if k + 1 >= |s| || IsSpace(s[k]) then false
    else if s[k] == '.' && !IsSpace(s[k + 1]) then true
    else DotFrom(s, k + 1)
  }

  /** Scans positions from `a` on for an `@` that can start a match. */
  function AtFrom(s: string, a: nat): bool
    requires a > 0
    decreases |s| - a
  {
    if a + 1 >= |s| then false
    else if s[a] == '@' && !IsSpace(s[a - 1]) && !IsSpace(s[a + 1]) && DotFrom(s, a + 2) then true
    else AtFrom(s, a + 1)
  }

  /** The executable form of the email shape test. The shortest text it
      accepts has five characters, as in `a@b.c`. */
  function HasEmailShape(s: string): (r: bool)
    ensures r ==> 5 <= |s|
  {
    AtFromIff(s, 1);
    assert AtFrom(s, 1) ==> 5 <= |s| by {
      if AtFrom(s, 1) {
        var a :| AtAt(s, 1, a);
        var d :| DotAt(s, a + 2, d);
      }
    }
    AtFrom(s, 1)
  }

  lemma {:induction false} DotFromIff(s: string, k: nat)
    ensures DotFrom(s, k) <==> DotFollows(s, k)
    decreases |s| - k
  {
    if k + 1 >= |s| || IsSpace(s[k]) {
      forall d ensures !DotAt(s, k, d) {
        if d > k && d + 1 < |s| {
          assert k <= k < d;
        }
      }
    } else if s[k] == '.' && !IsSpace(s[k + 1]) {
      assert DotAt(s, k, k);
    } else {
      DotFromIff(s, k + 1);
      if DotFrom(s, k + 1) {
        var d :| DotAt(s, k + 1, d);
        assert DotAt(s, k, d);
      } else {
        forall d ensures !DotAt(s, k, d) {
          if DotAt(s, k, d) {
            assert DotAt(s, k + 1, d);
          }
        }
      }
    }
  }

  lemma {:induction false} AtFromIff(s: string, a0: nat)
    requires a0 > 0
    ensures AtFrom(s, a0) <==> exists a :: AtAt(s, a0, a)
    decreases |s| - a0
  {
    if a0 + 1 >= |s| {
      forall a ensures !AtAt(s, a0, a) { }
    } else {
      DotFromIff(s, a0 + 2);
      if s[a0] == '@' && !IsSpace(s[a0 - 1]) && !IsSpace(s[a0 + 1]) && DotFrom(s, a0 + 2) {
        assert AtAt(s, a0, a0);
      } else {
        AtFromIff(s, a0 + 1);
        if AtFrom(s, a0 + 1) {
          var a :| AtAt(s, a0 + 1, a);
          assert AtAt(s, a0, a);
        } else {
          forall a ensures !AtAt(s, a0, a) {
            if AtAt(s, a0, a) && a != a0 {
              assert AtAt(s, a0 + 1, a);
            }
          }
        }
      }
    }
  }

  /** The scan answers exactly what the regular expression's `test` answers. */
  lemma HasEmailShapeIff(s: string)
    ensures HasEmailShape(s) <==> MatchesPattern(s)
  {
    AtFromIff(s, 1);
    if HasEmailShape(s) {
      var a :| AtAt(s, 1, a);
      var d :| DotAt(s, a + 2, d);
      assert MatchAt(s, a - 1, a, d, d + 2);
    }
    if MatchesPattern(s) {
      var i, a, d, j :| MatchAt(s, i, a, d, j);
      assert DotAt(s, a + 2, d);
      assert AtAt(s, 1, a);
    }
  }
}
