/** Levenshtein edit distance between two strings: the least number of
    single-character insertions, deletions and substitutions, each of cost
    one, that turn one string into the other. */
module Levenshtein {

  /** The least of three counts. */
  function Min3(x: nat, y: nat, z: nat): (m: nat)
    ensures m <= x && m <= y && m <= z
    ensures m == x || m == y || m == z
  {
    if x <= y && x <= z then x else if y <= z then y else z
  }

  /** Cost of putting `y` where `x` stands: nothing when they are equal. */
  function SubstCost(x: char, y: char): nat {
    if x == y then 0 else 1
  }

  /** The distance, by the standard recurrence on the last characters: the
      last character of `a` is deleted, the last character of `b` is
      inserted, or the one is substituted by the other. */
  function Distance(a: string, b: string): (d: nat)
    ensures d <= |a| + |b|
    decreases |a| + |b|
  {
    if |a| == 0 then |b|
    else if |b| == 0 then |a|
    else
      Min3(Distance(a[..|a| - 1], b) + 1,
           Distance(a, b[..|b| - 1]) + 1,
           Distance(a[..|a| - 1], b[..|b| - 1]) + SubstCost(a[|a| - 1], b[|b| - 1]))
  }

  // ---------------------------------------------------------------------
  // Properties

  /** A string is at distance zero from itself. */
  lemma {:induction false} DistanceToSelf(a: string)
    ensures Distance(a, a) == 0
  {
    if |a| > 0 {
      DistanceToSelf(a[..|a| - 1]);
    }
  }

  /** The distance is symmetric: every insertion one way is a deletion the
      other way. */
  lemma {:induction false} DistanceSymmetric(a: string, b: string)
    ensures Distance(a, b) == Distance(b, a)
    decreases |a| + |b|
  {
    if |a| > 0 && |b| > 0 {
      DistanceSymmetric(a[..|a| - 1], b);
      DistanceSymmetric(a, b[..|b| - 1]);
      DistanceSymmetric(a[..|a| - 1], b[..|b| - 1]);
    }
  }

  /** At least the difference of the lengths, at most the longer length. */
  lemma {:induction false} DistanceBounds(a: string, b: string)
    ensures |a| - |b| <= Distance(a, b) && |b| - |a| <= Distance(a, b)
    ensures Distance(a, b) <= if |a| <= |b| then |b| else |a|
    decreases |a| + |b|
  {
    if |a| > 0 && |b| > 0 {
      DistanceBounds(a[..|a| - 1], b);
      DistanceBounds(a, b[..|b| - 1]);
      DistanceBounds(a[..|a| - 1], b[..|b| - 1]);
    }
  }

  /** The distance is zero exactly when the strings are equal. */
  lemma {:induction false} DistanceZero(a: string, b: string)
    ensures Distance(a, b) == 0 <==> a == b
    decreases |a| + |b|
  {
    if a == b {
      DistanceToSelf(a);
    } else if |a| > 0 && |b| > 0 {
      assert a == a[..|a| - 1] + [a[|a| - 1]];
      assert b == b[..|b| - 1] + [b[|b| - 1]];
      DistanceZero(a[..|a| - 1], b[..|b| - 1]);
    }
  }

  /** Appending one character to each string costs at most one substitution. */
  lemma DistanceAppend(a: string, b: string, x: char, y: char)
    ensures Distance(a + [x], b + [y]) <= Distance(a, b) + SubstCost(x, y)
  {
    assert (a + [x])[..|a|] == a;
    assert (b + [y])[..|b|] == b;
  }

  // ---------------------------------------------------------------------
  // The dynamic-programming table

  /** The recurrence, stated on prefixes of `a` and `b`. */
  lemma Recurrence(a: string, b: string, i: nat, j: nat)
    requires 0 < i <= |a| && 0 < j <= |b|
    ensures Distance(a[..i], b[..j]) ==
      Min3(Distance(a[..i - 1], b[..j]) + 1,
           Distance(a[..i], b[..j - 1]) + 1,
           Distance(a[..i - 1], b[..j - 1]) + SubstCost(a[i - 1], b[j - 1]))
  {
    assert a[..i][..i - 1] == a[..i - 1];
    assert b[..j][..j - 1] == b[..j - 1];
  }

  /** The distances from `a[..i]` to every prefix of `b`: row `i` of the
      dynamic-programming table. */
  function Row(a: string, b: string, i: nat): (r: seq<nat>)
    requires i <= |a|
    ensures |r| == |b| + 1
  {
    seq(|b| + 1, m requires 0 <= m <= |b| => Distance(a[..i], b[..m]))
  }

  /** Overwriting position `j` of a sequence that agrees with `done` before
      `j` and with `todo` from `j` on, with the value `done` has there. */
  lemma Overwrite<T>(s: seq<T>, done: seq<T>, todo: seq<T>, j: nat, x: T)
    requires j < |s| == |done| == |todo|
    requires s[..j] == done[..j] && s[j..] == todo[j..] && x == done[j]
    ensures s[j := x][..j + 1] == done[..j + 1]
    ensures s[j := x][j + 1..] == todo[j + 1..]
  {
    assert s[j := x][..j + 1] == s[..j] + [x];
    assert done[..j + 1] == done[..j] + [done[j]];
    assert s[j + 1..] == s[j..][1..];
    assert todo[j + 1..] == todo[j..][1..];
  }

  /** One entry of row `i` from its neighbours in rows `i - 1` and `i`. */
  lemma RowStep(a: string, b: string, i: nat, j: nat, previous: seq<nat>, target: seq<nat>)
    requires 0 < i <= |a| && 0 < j <= |b|
    requires previous == Row(a, b, i - 1) && target == Row(a, b, i)
    ensures target[j] == Min3(previous[j] + 1, target[j - 1] + 1, previous[j - 1] + SubstCost(a[i - 1], b[j - 1]))
  {
    Recurrence(a, b, i, j);
  }

  /** Turns row `i - 1` of the table into row `i`, left to right, keeping
      the overwritten diagonal entry in a variable. */
  method NextRow(a: string, b: string, i: nat, row: array<nat>)
    requires 0 < i <= |a| && row.Length == |b| + 1
    requires row[..] == Row(a, b, i - 1)
    modifies row
    ensures row[..] == Row(a, b, i)
  {
    ghost var previous := Row(a, b, i - 1);
    ghost var target := Row(a, b, i);
    var diagonal := row[0];
    assert |a[..i]| == i && b[..0] == [];
    Overwrite(row[..], target, previous, 0, i);
    row[0] := i;
    for j := 1 to |b| + 1
      invariant row[..j] == target[..j]
      invariant row[j..] == previous[j..]
      invariant diagonal == previous[j - 1]
    {
      ghost var before := row[..];
      assert before[j] == previous[j] && before[j - 1] == target[j - 1];
      RowStep(a, b, i, j, previous, target);
      var next := Min3(row[j] + 1, row[j - 1] + 1, diagonal + SubstCost(a[i - 1], b[j - 1]));
      assert next == target[j];
      Overwrite(before, target, previous, j, next);
      diagonal := row[j];
      row[j] := next;
      assert row[..] == before[j := next];
    }
    assert row[..] == row[..|b| + 1];
  }

  /** The distance computed row by row in one array: before row `i` is
      filled, the array holds row `i - 1`. */
  method ComputeDistance(a: string, b: string) returns (d: nat)
    ensures d == Distance(a, b)
  {
    var row := new nat[|b| + 1];
    for k := 0 to |b| + 1
      invariant forall m :: 0 <= m < k ==> row[m] == m
    {
      row[k] := k;
    }
    assert row[..] == Row(a, b, 0);
    for i := 1 to |a| + 1
      invariant row[..] == Row(a, b, i - 1)
    {
      NextRow(a, b, i, row);
    }
    d := row[|b|];
    assert a[..|a|] == a && b[..|b|] == b;
  }
}
