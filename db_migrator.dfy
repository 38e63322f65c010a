/**
 * The rollback planner of `DBMigrator#rollback`.
 *
 * The `schema_migrations` ledger holds one row per applied migration, keyed
 * by its file name. To undo the `K` most recent migrations the planner
 * fetches the `K + 1` rows with the greatest file names, newest first, turns
 * each file name into a version number, and hands the first as `current`
 * and the last as `target` to the migration runner. The ledger is a
 * sequence of file names in whatever order the database stores them; the
 * runner itself is not part of this model, so the plan is the result.
 */
module DbMigrator {

  import opened Wrappers
  import opened StringOrder
  import opened RubyInteger

  function Min(a: nat, b: nat): nat
  {
    if a <= b then a else b
  }

  /** Newest first: no file name sorts after one that comes before it. */
  predicate Descending(s: seq<string>)
  {
    forall i, j :: 0 <= i < j < |s| ==> Le(s[j], s[i])
  }

  /** Every file name in `s` sorts no later than `m`. */
  predicate AllLe(s: seq<string>, m: string)
  {
    forall i :: 0 <= i < |s| ==> Le(s[i], m)
  }

  lemma {:induction false} AllLeOfSubMultiset(a: seq<string>, b: seq<string>, m: string)
    requires multiset(a) <= multiset(b) && AllLe(b, m)
    ensures AllLe(a, m)
  {
    forall i | 0 <= i < |a|
      ensures Le(a[i], m)
    {
      assert a[i] in multiset(b);
    }
  }

  lemma {:induction false} HeadBoundsAll(s: seq<string>, x: string)
    requires Descending(s) && |s| > 0 && Le(s[0], x)
    ensures AllLe(s, x)
  {
    forall i | 0 <= i < |s|
      ensures Le(s[i], x)
    {
      if i > 0 {
        LeTransitive(s[i], s[0], x);
      }
    }
  }

  lemma {:induction false} ConsDescending(h: string, t: seq<string>)
    requires Descending(t) && AllLe(t, h)
    ensures Descending([h] + t)
  {
    var s := [h] + t;
    forall i, j | 0 <= i < j < |s|
      ensures Le(s[j], s[i])
    {
      assert s[j] == t[j - 1];
      if i > 0 {
        assert s[i] == t[i - 1];
      }
    }
  }

  /** Places `x` into a newest-first sequence. */
  function InsertDesc(x: string, s: seq<string>): (r: seq<string>)
    requires Descending(s)
    ensures Descending(r)
    ensures multiset(r) == multiset(s) + multiset{x}
  {
    if |s| == 0 then [x]
    else if Le(s[0], x) then
      HeadBoundsAll(s, x);
      ConsDescending(x, s);
      [x] + s
    else
      var rest := InsertDesc(x, s[1..]);
      TailBoundedByHead(s, x);
      AllLeOfSubMultiset(rest, s[1..] + [x], s[0]);
      ConsDescending(s[0], rest);
      assert s == [s[0]] + s[1..];
      [s[0]] + rest
  }

  lemma {:induction false} TailBoundedByHead(s: seq<string>, x: string)
    requires Descending(s) && |s| > 0 && !Le(s[0], x)
    ensures AllLe(s[1..] + [x], s[0])
  {
    LeTotal(s[0], x);
  }

  /** `ORDER BY filename DESC`: the ledger rows, greatest file name first. */
  function SortDesc(rows: seq<string>): (r: seq<string>)
    ensures Descending(r)
    ensures multiset(r) == multiset(rows)
  {
    if |rows| == 0 then []
    else
      assert rows == [rows[0]] + rows[1..];
      InsertDesc(rows[0], SortDesc(rows[1..]))
  }

  lemma {:induction false} DescendingTail(s: seq<string>)
    requires Descending(s) && |s| > 0
    ensures Descending(s[1..])
  {
    forall i, j | 0 <= i < j < |s| - 1
      ensures Le(s[1..][j], s[1..][i])
    {
      assert s[1..][j] == s[j + 1] && s[1..][i] == s[i + 1];
    }
  }

  /** Two newest-first orderings of the same rows are the same sequence:
      the sort depends on nothing but which rows there are. */
  lemma {:induction false} DescendingUnique(a: seq<string>, b: seq<string>)
    requires Descending(a) && Descending(b)
    requires multiset(a) == multiset(b)
    ensures a == b
    decreases |a|
  {
    assert |a| == |multiset(a)| == |multiset(b)| == |b|;
    if |a| > 0 {
      SameHead(a, b);
      MultisetOfTail(a);
      MultisetOfTail(b);
      DescendingTail(a);
      DescendingTail(b);
      DescendingUnique(a[1..], b[1..]);
      assert a == [a[0]] + a[1..] && b == [b[0]] + b[1..];
    }
  }

  lemma {:induction false} SameHead(a: seq<string>, b: seq<string>)
    requires Descending(a) && Descending(b)
    requires multiset(a) == multiset(b) && |a| > 0 && |b| > 0
    ensures a[0] == b[0]
  {
    assert a[0] in multiset(b) && b[0] in multiset(a);
    BelowHead(b, a[0]);
    BelowHead(a, b[0]);
    LeAntisymmetric(a[0], b[0]);
  }

  /** Every row of a newest-first sequence sorts no later than its head. */
  lemma {:induction false} BelowHead(s: seq<string>, x: string)
    requires Descending(s) && x in s
    ensures Le(x, s[0])
  {
    var i :| 0 <= i < |s| && s[i] == x;
    if i == 0 {
      LeReflexive(x);
    }
  }

  /** The last row of a newest-first sequence sorts no later than any of its rows. */
  lemma {:induction false} LastBelow(s: seq<string>, x: string)
    requires Descending(s) && x in s
    ensures Le(s[|s| - 1], x)
  {
    var i :| 0 <= i < |s| && s[i] == x;
    if i == |s| - 1 {
      LeReflexive(x);
    }
  }

  lemma {:induction false} MultisetOfTail(s: seq<string>)
    requires |s| > 0
    ensures multiset(s[1..]) == multiset(s) - multiset{s[0]}
  {
    assert s == [s[0]] + s[1..];
  }

  /** The ledger query `order(desc(:filename)).limit(k + 1).all`. */
  function RecentMigrations(rows: seq<string>, k: nat): (r: seq<string>)
    ensures |r| == Min(k + 1, |rows|)
    ensures Descending(r)
    ensures multiset(r) <= multiset(rows)
  {
    var sorted := SortDesc(rows);
    assert |sorted| == |multiset(rows)| == |rows|;
    MultisetOfSplit(sorted, Min(k + 1, |rows|));
    DescendingPrefix(sorted, Min(k + 1, |rows|));
    sorted[..Min(k + 1, |rows|)]
  }

  /** `split("_", 2).first` on a file name: the text before the first `_`,
      or the whole name when it has none; `nil` for the empty name, which
      Ruby splits into no fields at all. */
  function FirstField(filename: string): (r: Option<string>)
    ensures r.None? <==> filename == ""
    ensures r.Some? ==> r.value <= filename && '_' !in r.value
    ensures r.Some? && |r.value| < |filename| ==> filename[|r.value|] == '_'
  {
    if filename == "" then None
    else if filename[0] == '_' then Some("")
    else if |filename| == 1 then Some(filename)
    else
      var tail := FirstField(filename[1..]);
      Some([filename[0]] + tail.value)
  }

  /** The version a ledger row stands for: `split("_", 2).first.to_i`. */
  function VersionOf(filename: string): int
  {
    OptionToI(FirstField(filename))
  }

  /** `collect { |hash| VersionOf(hash[:filename]) }`. */
  function CollectVersions(filenames: seq<string>): (r: seq<int>)
    ensures |r| == |filenames|
    ensures forall i :: 0 <= i < |r| ==> r[i] == VersionOf(filenames[i])
  {
    seq(|filenames|, i requires 0 <= i < |filenames| => VersionOf(filenames[i]))
  }

  function First(s: seq<int>): Option<int>
  {
    if |s| == 0 then None else Some(s[0])
  }

  function Last(s: seq<int>): Option<int>
  {
    if |s| == 0 then None else Some(s[|s| - 1])
  }

  /** The options hash `rollback` passes to `apply_migrations`. */
  datatype RunOptions = RunOptions(current: Option<int>, target: Option<int>)

  /** `DBMigrator#rollback(k)` over the ledger rows `rows`. */
  function Rollback(rows: seq<string>, k: nat): (r: RunOptions)
    ensures r.current.None? <==> |rows| == 0
    ensures r.target.None? <==> |rows| == 0
  {
    var versions := CollectVersions(RecentMigrations(rows, k));
    RunOptions(First(versions), Last(versions))
  }

  // ---------------------------------------------------------------------
  // What the ledger query consults

  /** At most `k + 1` rows are consulted, and fewer only when the ledger
      has fewer than `k + 1` rows. */
  lemma {:induction false} RecentMigrationsCount(rows: seq<string>, k: nat)
    ensures |RecentMigrations(rows, k)| <= k + 1
    ensures |RecentMigrations(rows, k)| <= |rows|
    ensures |RecentMigrations(rows, k)| == k + 1 <==> |rows| >= k + 1
    ensures |RecentMigrations(rows, k)| == |rows| <==> |rows| <= k + 1
  {
    assert |SortDesc(rows)| == |multiset(rows)| == |rows|;
  }

  /** The characterisation of the consulted rows: `c` is newest first, has
      `min(k + 1, n)` rows taken from the ledger, and every ledger row left
      out sorts no later than every row taken. */
  ghost predicate GreatestRows(rows: seq<string>, k: nat, c: seq<string>)
  {
    && |c| == Min(k + 1, |rows|)
    && Descending(c)
    && multiset(c) <= multiset(rows)
    && forall x, i :: x in multiset(rows) - multiset(c) && 0 <= i < |c| ==> Le(x, c[i])
  }

  /** The consulted rows are the `min(k + 1, n)` greatest file names, newest first. */
  lemma {:induction false} RecentMigrationsAreGreatest(rows: seq<string>, k: nat)
    ensures GreatestRows(rows, k, RecentMigrations(rows, k))
  {
    var s := SortDesc(rows);
    RecentMigrationsCount(rows, k);
    var n := Min(k + 1, |rows|);
    MultisetOfSplit(s, n);
    DescendingPrefix(s, n);
    RestBelowPrefix(s, n);
  }

  lemma {:induction false} MultisetOfSplit(s: seq<string>, n: nat)
    requires n <= |s|
    ensures multiset(s[..n]) <= multiset(s)
    ensures multiset(s) - multiset(s[..n]) == multiset(s[n..])
  {
    assert s == s[..n] + s[n..];
  }

  lemma {:induction false} DescendingPrefix(s: seq<string>, n: nat)
    requires Descending(s) && n <= |s|
    ensures Descending(s[..n])
  {
    forall i, j | 0 <= i < j < n
      ensures Le(s[..n][j], s[..n][i])
    {
      assert s[..n][j] == s[j] && s[..n][i] == s[i];
    }
  }

  /** In a newest-first sequence, everything after position `n` sorts no
      later than everything before it. */
  lemma {:induction false} RestBelowPrefix(s: seq<string>, n: nat)
    requires Descending(s) && n <= |s|
    ensures forall x, i :: x in multiset(s[n..]) && 0 <= i < |s[..n]| ==> Le(x, s[..n][i])
  {
    forall x, i | x in multiset(s[n..]) && 0 <= i < n
      ensures Le(x, s[..n][i])
    {
      assert x in s[n..];
      var j :| n <= j < |s| && s[j] == x;
      assert s[..n][i] == s[i];
    }
  }

  /** A newest-first sequence followed by one whose rows all sort no later
      than any of its own is newest first. */
  lemma {:induction false} AppendDescending(c: seq<string>, t: seq<string>)
    requires Descending(c) && Descending(t)
    requires forall x, i :: x in multiset(t) && 0 <= i < |c| ==> Le(x, c[i])
    ensures Descending(c + t)
  {
    var full := c + t;
    forall i, j | 0 <= i < j < |full|
      ensures Le(full[j], full[i])
    {
      if j >= |c| && i < |c| {
        assert full[j] == t[j - |c|] && t[j - |c|] in multiset(t);
      } else if i >= |c| {
        assert full[i] == t[i - |c|] && full[j] == t[j - |c|];
      }
    }
  }

  /** Gathers a multiset of file names into some sequence. */
  ghost function SeqOf(m: multiset<string>): (r: seq<string>)
    ensures multiset(r) == m
    decreases |m|
  {
    if |m| == 0 then []
    else
      var x :| x in m;
      [x] + SeqOf(m - multiset{x})
  }

  /** Only one sequence has that characterisation: the consulted rows are
      exactly the greatest file names and nothing else decides them. */
  lemma {:induction false} RecentMigrationsUnique(rows: seq<string>, k: nat, c: seq<string>)
    requires GreatestRows(rows, k, c)
    ensures c == RecentMigrations(rows, k)
  {
    var d := multiset(rows) - multiset(c);
    var t := SortDesc(SeqOf(d));
    assert multiset(t) == d;
    AppendDescending(c, t);
    assert multiset(c + t) == multiset(c) + d;
    assert multiset(c) + d == multiset(rows);
    SortedPrefix(rows, c, t);
  }

  /** A newest-first arrangement of the ledger rows begins with whatever
      the sort begins with. */
  lemma {:induction false} SortedPrefix(rows: seq<string>, c: seq<string>, t: seq<string>)
    requires Descending(c + t) && multiset(c + t) == multiset(rows)
    ensures |c| <= |rows| && SortDesc(rows)[..|c|] == c
  {
    DescendingUnique(c + t, SortDesc(rows));
    assert |c + t| == |multiset(rows)| == |rows|;
    assert (c + t)[..|c|] == c;
  }

  /** Rows older than every consulted one, added to a ledger that already
      has `k + 1` rows, change neither the consulted rows nor the plan. */
  lemma {:induction false} RollbackIgnoresOlderRows(rows: seq<string>, extra: seq<string>, k: nat)
    requires |rows| >= k + 1
    requires forall x, y :: x in extra && y in RecentMigrations(rows, k) ==> Le(x, y)
    ensures RecentMigrations(rows + extra, k) == RecentMigrations(rows, k)
    ensures Rollback(rows + extra, k) == Rollback(rows, k)
  {
    var c := RecentMigrations(rows, k);
    RecentMigrationsAreGreatest(rows, k);
    var all := rows + extra;
    assert multiset(all) == multiset(rows) + multiset(extra);
    assert multiset(all) - multiset(c) == (multiset(rows) - multiset(c)) + multiset(extra);
    forall x, i | x in multiset(all) - multiset(c) && 0 <= i < |c|
      ensures Le(x, c[i])
    {
      if x !in multiset(rows) - multiset(c) {
        assert x in extra && c[i] in c;
      }
    }
    RecentMigrationsUnique(all, k, c);
  }

  /** The plan does not depend on the order the ledger rows are stored in. */
  lemma {:induction false} RollbackPermutationInvariant(rows: seq<string>, stored: seq<string>, k: nat)
    requires multiset(stored) == multiset(rows)
    ensures RecentMigrations(stored, k) == RecentMigrations(rows, k)
    ensures Rollback(stored, k) == Rollback(rows, k)
  {
    DescendingUnique(SortDesc(stored), SortDesc(rows));
    assert |stored| == |multiset(stored)| == |rows|;
  }

  // ---------------------------------------------------------------------
  // The plan

  /** `current` is the version of the greatest file name in the ledger. */
  lemma {:induction false} RollbackCurrentIsGreatest(rows: seq<string>, k: nat, g: string)
    requires g in rows && AllLe(rows, g)
    ensures Rollback(rows, k).current == Some(VersionOf(g))
  {
    var s := SortDesc(rows);
    assert s[0] in multiset(rows);
    assert g in multiset(s);
    BelowHead(s, g);
    LeAntisymmetric(s[0], g);
    RollbackEnds(rows, k);
    RecentMigrationsCount(rows, k);
  }

  /** The plan's two ends are the versions of the first and the last
      consulted rows. */
  lemma {:induction false} RollbackEnds(rows: seq<string>, k: nat)
    ensures var c := RecentMigrations(rows, k);
      && Rollback(rows, k).current == (if |c| == 0 then None else Some(VersionOf(c[0])))
      && Rollback(rows, k).target == (if |c| == 0 then None else Some(VersionOf(c[|c| - 1])))
  {
    var c := RecentMigrations(rows, k);
    var v := CollectVersions(c);
    assert Rollback(rows, k) == RunOptions(First(v), Last(v));
  }

  /** `target` is the version of the last consulted file name, which never
      sorts after the one `current` comes from. */
  lemma {:induction false} RollbackTargetIsLastConsulted(rows: seq<string>, k: nat)
    requires |rows| > 0
    ensures var c := RecentMigrations(rows, k);
      && |c| > 0
      && Rollback(rows, k).current == Some(VersionOf(c[0]))
      && Rollback(rows, k).target == Some(VersionOf(c[|c| - 1]))
      && Le(c[|c| - 1], c[0])
  {
    var c := RecentMigrations(rows, k);
    RecentMigrationsCount(rows, k);
    RollbackEnds(rows, k);
    var s := SortDesc(rows);
    assert c[0] == s[0] && c[|c| - 1] == s[|c| - 1];
    if |c| == 1 {
      LeReflexive(c[0]);
    }
  }

  /** `rollback(0)` on a non-empty ledger consults exactly one row, so
      `current` and `target` agree. */
  lemma {:induction false} RollbackZeroIsNoOp(rows: seq<string>)
    requires |rows| > 0
    ensures |RecentMigrations(rows, 0)| == 1
    ensures Rollback(rows, 0).current.Some?
    ensures Rollback(rows, 0).current == Rollback(rows, 0).target
  {
    RecentMigrationsCount(rows, 0);
  }

  /** When `k + 1` reaches the ledger size, `target` is the version of the
      smallest file name in the ledger: the oldest row is kept as the floor. */
  lemma {:induction false} RollbackAllKeepsOldest(rows: seq<string>, k: nat, m: string)
    requires k + 1 >= |rows|
    requires m in rows && forall i :: 0 <= i < |rows| ==> Le(m, rows[i])
    ensures Rollback(rows, k).target == Some(VersionOf(m))
  {
    LastOfSortIsSmallest(rows, m);
    var c := RecentMigrations(rows, k);
    assert |c| == |rows|;
    assert c[|c| - 1] == SortDesc(rows)[|rows| - 1];
    RollbackEnds(rows, k);
  }

  /** The sorted ledger ends with its smallest file name. */
  lemma {:induction false} LastOfSortIsSmallest(rows: seq<string>, m: string)
    requires m in rows && forall i :: 0 <= i < |rows| ==> Le(m, rows[i])
    ensures |SortDesc(rows)| == |rows| > 0 && SortDesc(rows)[|rows| - 1] == m
  {
    var s := SortDesc(rows);
    assert |s| == |multiset(s)| == |rows|;
    var last := s[|s| - 1];
    assert last in multiset(rows) && m in multiset(s);
    LastBelow(s, m);
    LeAntisymmetric(last, m);
  }

  /** Both ends of the plan are `nil` exactly when the ledger is empty. */
  lemma {:induction false} RollbackEmptyLedger(rows: seq<string>, k: nat)
    ensures Rollback(rows, k).current.None? <==> |rows| == 0
    ensures Rollback(rows, k).target.None? <==> |rows| == 0
    ensures |rows| == 0 ==> Rollback(rows, k) == RunOptions(None, None)
  {
    RecentMigrationsCount(rows, k);
  }

  // ---------------------------------------------------------------------
  // Versions

  /** A file name's version is the `to_i` of its text before the first `_`,
      or of the whole name when it has no `_`. */
  lemma {:induction false} VersionOfPrefix(prefix: string, rest: string)
    requires '_' !in prefix
    requires rest == "" || rest[0] == '_'
    ensures VersionOf(prefix + rest) == ToI(prefix)
  {
    FirstFieldOfPrefix(prefix, rest);
  }

  lemma {:induction false} FirstFieldOfPrefix(prefix: string, rest: string)
    requires '_' !in prefix
    requires rest == "" || rest[0] == '_'
    ensures prefix + rest == "" || FirstField(prefix + rest) == Some(prefix)
  {
    var f := prefix + rest;
    if |prefix| > 0 {
      assert f[0] == prefix[0] && f[1..] == prefix[1..] + rest;
      assert prefix[0] in prefix;
      assert forall c :: c in prefix[1..] ==> c in prefix;
      if |f| > 1 {
        FirstFieldOfPrefix(prefix[1..], rest);
        assert prefix == [prefix[0]] + prefix[1..];
      } else {
        assert rest == "" && f == prefix;
      }
    } else {
      assert f == rest;
    }
  }

  /** A migration file named `<version>_<description>` gives its version. */
  lemma {:induction false} VersionOfMigrationFile(version: nat, description: string)
    ensures VersionOf(Decimal(version) + "_" + description) == version
  {
    var d := Decimal(version);
    assert forall i :: 0 <= i < |d| ==> d[i] != '_';
    assert d + "_" + description == d + ("_" + description);
    VersionOfPrefix(d, "_" + description);
    DecimalRoundTrip(version);
  }

  /** The timestamped file names the repository uses read as their timestamp. */
  lemma VersionOfTimestampedFile()
    ensures VersionOf("20130131_foo.rb") == 20130131
  {
    VersionOfMigrationFile(20130131, "foo.rb");
    TimestampSpelling();
  }

  lemma TimestampSpelling()
    ensures Decimal(20130131) + "_" + "foo.rb" == "20130131_foo.rb"
  {
    assert Decimal(2) == "2";
    assert Decimal(20) == "20";
    assert Decimal(201) == "201";
    assert Decimal(2013) == "2013";
    assert Decimal(20130) == "20130";
    assert Decimal(201301) == "201301";
    assert Decimal(2013013) == "2013013";
    assert Decimal(20130131) == "20130131";
  }

  /** The consulted rows are chosen by file name, not by version: with
      "9_b.rb" and "10_a.rb" in the ledger, `rollback(0)` plans from
      version 9 although version 10 is applied. */
  lemma OrderIsByFileNameNotVersion()
    ensures Rollback(["10_a.rb", "9_b.rb"], 0) == RunOptions(Some(9), Some(9))
  {
    NineSortsLast();
    RollbackZeroIsNoOp(["10_a.rb", "9_b.rb"]);
  }

  lemma NineSortsLast()
    ensures Rollback(["10_a.rb", "9_b.rb"], 0).current == Some(9)
  {
    LeReflexive("9_b.rb");
    assert Le("10_a.rb", "9_b.rb");
    RollbackCurrentIsGreatest(["10_a.rb", "9_b.rb"], 0, "9_b.rb");
    NineVersion();
  }

  lemma NineVersion()
    ensures VersionOf("9_b.rb") == 9
  {
    NineSpelling();
    VersionOfMigrationFile(9, "b.rb");
  }

  lemma NineSpelling()
    ensures Decimal(9) + "_" + "b.rb" == "9_b.rb"
  {
  }
}
