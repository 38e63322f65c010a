/**
 * Lexicographic order on strings, character by character, a shorter prefix
 * coming first. It stands in for the database collation used by
 * `ORDER BY filename` in the migration ledger query.
 */
module StringOrder {

  /** `a` sorts no later than `b`. */
  predicate Le(a: string, b: string)
    decreases |a|
  {
    if |a| == 0 then true
    else if |b| == 0 then false
    else if a[0] != b[0] then a[0] < b[0]
    else Le(a[1..], b[1..])
  }

  /** Positional definition of lexicographic order: `a` is a prefix of `b`, or the two
      first differ at some position where `a` has the smaller character. */
  ghost predicate LeByPosition(a: string, b: string)
  {
    a <= b ||
    exists i :: 0 <= i < |a| && i < |b| && a[..i] == b[..i] && a[i] < b[i]
  }

  lemma {:induction false} LeReflexive(a: string)
    ensures Le(a, a)
    decreases |a|
  {
    if |a| > 0 {
      LeReflexive(a[1..]);
    }
  }

  lemma {:induction false} LeAntisymmetric(a: string, b: string)
    requires Le(a, b) && Le(b, a)
    ensures a == b
    decreases |a|
  {
    if |a| > 0 && |b| > 0 {
      LeAntisymmetric(a[1..], b[1..]);
      assert a == [a[0]] + a[1..] && b == [b[0]] + b[1..];
    }
  }

  lemma {:induction false} LeTransitive(a: string, b: string, c: string)
    requires Le(a, b) && Le(b, c)
    ensures Le(a, c)
    decreases |a|
  {
    if |a| > 0 && |b| > 0 && |c| > 0 && a[0] == b[0] && b[0] == c[0] {
      LeTransitive(a[1..], b[1..], c[1..]);
    }
  }

  lemma {:induction false} LeTotal(a: string, b: string)
    ensures Le(a, b) || Le(b, a)
    decreases |a|
  {
    if |a| > 0 && |b| > 0 && a[0] == b[0] {
      LeTotal(a[1..], b[1..]);
    }
  }

  /** The recursive comparison agrees with the positional definition. */
  lemma {:induction false} LeMatchesPosition(a: string, b: string)
    ensures Le(a, b) <==> LeByPosition(a, b)
  {
    if Le(a, b) {
      LeGivesPosition(a, b);
    }
    if LeByPosition(a, b) {
      PositionGivesLe(a, b);
    }
  }

  lemma {:induction false} LeGivesPosition(a: string, b: string)
    requires Le(a, b)
    ensures LeByPosition(a, b)
    decreases |a|
  {
    if |a| == 0 {
      assert a <= b;
    } else if a[0] != b[0] {
      assert a[..0] == b[..0];
    } else {
      LeGivesPosition(a[1..], b[1..]);
      if a[1..] <= b[1..] {
        assert a == [a[0]] + a[1..] && b == [b[0]] + b[1..];
        assert a <= b;
      } else {
        var j :| 0 <= j < |a[1..]| && j < |b[1..]| && a[1..][..j] == b[1..][..j] && a[1..][j] < b[1..][j];
        assert a[..j + 1] == [a[0]] + a[1..][..j];
        assert b[..j + 1] == [b[0]] + b[1..][..j];
        assert a[j + 1] < b[j + 1];
      }
    }
  }

  lemma {:induction false} PositionGivesLe(a: string, b: string)
    requires LeByPosition(a, b)
    ensures Le(a, b)
    decreases |a|
  {
    if |a| == 0 {
    } else if a <= b {
      assert a[1..] <= b[1..];
      PositionGivesLe(a[1..], b[1..]);
    } else {
      var i :| 0 <= i < |a| && i < |b| && a[..i] == b[..i] && a[i] < b[i];
      if i > 0 {
        assert a[0] == a[..i][0] && b[0] == b[..i][0];
        assert a[1..][..i - 1] == a[1..i] == b[1..i] == b[1..][..i - 1];
        assert a[1..][i - 1] < b[1..][i - 1];
        PositionGivesLe(a[1..], b[1..]);
      }
    }
  }
}
