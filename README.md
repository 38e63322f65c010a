# Rollback planner of the Cloud Controller database migrator

Cloud Controller keeps a `schema_migrations` table with one row per applied
schema migration, keyed by the migration's file name (for example
`20130131_foo.rb`). `DBMigrator#rollback(k)` plans how to undo the `k` most
recent migrations. It runs one query and one mapping step:

1. It fetches the `k + 1` rows with the greatest `filename`, newest first
   (`order(Sequel.desc(:filename)).limit(k + 1)`).
2. It turns each file name into a version: the text before the first `_`,
   read with Ruby's `String#to_i`.
3. It passes the first version as `current` and the last as `target` to
   `apply_migrations`. That method hands them to `Sequel::Migrator.run`.

This project models that planner as pure functions and proves what it
computes. The ledger is a `seq<string>` of file names in whatever order
the database holds them. `k` is a `nat`. The result is the options hash
`RunOptions(current, target)`, with `Option<int>` standing for Ruby's
`nil`-or-integer.

Files:

- `wrappers.dfy`: `Option`.
- `string_order.dfy`: lexicographic order on strings (`Le`) and its order
  laws. We assume this order stands in for the database collation that
  `ORDER BY filename` uses.
- `ruby_to_i.dfy`: Ruby's base-10 `String#to_i` and `nil.to_i`. The rules
  are: skip leading white space; read an optional `+` or `-`; skip an
  optional `0d`/`0D` radix prefix; then read the decimal digits that follow.
  If there are no digits, the result is 0.
- `db_migrator.dfy`: the ledger query (`SortDesc`, `RecentMigrations`),
  `split("_", 2).first` (`FirstField`), `VersionOf` and `Rollback`, with
  the lemmas about them.

Three points about the code are easy to miss:

- Rows are chosen by the file-name string, not by the integer version.
  The two orders are different (`OrderIsByFileNameNotVersion`).
- An empty ledger is not an error. The code passes `current: nil,
  target: nil` on to the runner.
- The version is read with `to_i`. Besides digits, `to_i` accepts leading
  white space, a sign and a `0d` prefix.

## Model

| member | source | states |
|---|---|---|
| `StringOrder.Le` | lib/cloud_controller/db_migrator.rb:21 | The order `ORDER BY filename` uses, compared character by character. It is specified by `LeMatchesPosition` and the order laws below. |
| `StringOrder.LeMatchesPosition` | lib/cloud_controller/db_migrator.rb:21 | The file-name order is lexicographic: `a` sorts no later than `b` exactly when `a` is a prefix of `b`, or when `a` has the smaller character at the first position where they differ. Both directions are proved. |
| `StringOrder.LeReflexive` | lib/cloud_controller/db_migrator.rb:21 | Every file name sorts no later than itself. |
| `StringOrder.LeAntisymmetric` | lib/cloud_controller/db_migrator.rb:21 | Two file names that each sort no later than the other are equal. |
| `StringOrder.LeTransitive` | lib/cloud_controller/db_migrator.rb:21 | The file-name order is transitive. |
| `StringOrder.LeTotal` | lib/cloud_controller/db_migrator.rb:21 | Any two file names are comparable, so `ORDER BY filename` is a total order. |
| `RubyInteger.ToI` | lib/cloud_controller/db_migrator.rb:22 | Ruby's base-10 `String#to_i`. It is specified by `DecimalRoundTrip`, `ToIOfDigits`, `ToISkipsSpace` and `ToINoNumber`. |
| `RubyInteger.SkipSpace` | lib/cloud_controller/db_migrator.rb:22 | `to_i` starts reading after the longest run of leading white space; what is left begins with a non-space character. |
| `RubyInteger.LeadingDigits` | lib/cloud_controller/db_migrator.rb:22 | The digits `to_i` reads are the longest all-digit prefix; the character that follows it, if any, is not a digit. |
| `RubyInteger.ToIOfDigits` | lib/cloud_controller/db_migrator.rb:22 | A run of digits followed by a non-digit (or by nothing) reads as the value of the digits. The one exception is a lone `0` followed by `d`/`D`, which is a radix prefix. |
| `RubyInteger.DecimalRoundTrip` | lib/cloud_controller/db_migrator.rb:22 | `to_i` reads back the decimal spelling of every natural number `n`. With a `+` in front it gives `n`; with a `-` in front it gives `-n`. |
| `RubyInteger.ToISkipsSpace` | lib/cloud_controller/db_migrator.rb:22 | A leading white-space character does not change the value `to_i` reads. |
| `RubyInteger.ToINoNumber` | lib/cloud_controller/db_migrator.rb:22 | A string that is empty, or starts with a character that cannot begin a number, reads as 0. |
| `DbMigrator.InsertDesc` | lib/cloud_controller/db_migrator.rb:21 | Inserting a row into a newest-first sequence keeps it newest first. The result holds the old rows plus the new one, as a multiset. |
| `DbMigrator.SortDesc` | lib/cloud_controller/db_migrator.rb:21 | `ORDER BY filename DESC` returns the ledger rows, a permutation of them, greatest file name first. |
| `DbMigrator.DescendingUnique` | lib/cloud_controller/db_migrator.rb:21 | Two newest-first sequences holding the same rows are equal. So the sorted ledger depends only on which rows there are. |
| `DbMigrator.RecentMigrations` | lib/cloud_controller/db_migrator.rb:21 | The ledger query returns `min(k + 1, n)` ledger rows, newest first. `RecentMigrationsAreGreatest` and `RecentMigrationsUnique` show these are exactly the greatest file names. |
| `DbMigrator.RecentMigrationsCount` | lib/cloud_controller/db_migrator.rb:21 | At most `k + 1` rows are consulted, and never more than the ledger holds. Exactly `k + 1` are consulted iff the ledger has at least `k + 1` rows. All rows are consulted iff the ledger has at most `k + 1`. |
| `DbMigrator.RecentMigrationsAreGreatest` | lib/cloud_controller/db_migrator.rb:21 | The consulted rows are `min(k + 1, n)` rows of the ledger, newest first. Every ledger row left out sorts no later than every consulted row. |
| `DbMigrator.RecentMigrationsUnique` | lib/cloud_controller/db_migrator.rb:21 | Any sequence with that characterisation is exactly the consulted rows. The consulted rows are the greatest file names and nothing else. |
| `DbMigrator.RollbackIgnoresOlderRows` | lib/cloud_controller/db_migrator.rb:21-24 | Take a ledger with at least `k + 1` rows, and add rows that sort no later than every consulted row. Neither the consulted rows nor the plan change. |
| `DbMigrator.RollbackPermutationInvariant` | lib/cloud_controller/db_migrator.rb:21-24 | Any permutation of the stored ledger rows gives the same consulted rows and the same `current`/`target`. |
| `DbMigrator.Rollback` | lib/cloud_controller/db_migrator.rb:20-25 | The plan `rollback` hands to `apply_migrations`. `current` and `target` are each `nil` exactly when the ledger is empty. The lemmas below pin down both values. |
| `DbMigrator.RollbackCurrentIsGreatest` | lib/cloud_controller/db_migrator.rb:21-23 | `current` is the version of the greatest file name in the ledger. |
| `DbMigrator.RollbackTargetIsLastConsulted` | lib/cloud_controller/db_migrator.rb:21-24 | On a non-empty ledger, `current` and `target` are the versions of the first and last consulted rows. The last one sorts no later than the first. |
| `DbMigrator.RollbackZeroIsNoOp` | lib/cloud_controller/db_migrator.rb:21-24 | `rollback(0)` on a non-empty ledger consults exactly one row, so `current == target` and both are present. |
| `DbMigrator.RollbackAllKeepsOldest` | lib/cloud_controller/db_migrator.rb:21-24 | When `k + 1` is at least the ledger size, `target` is the version of the smallest file name in the ledger. |
| `DbMigrator.RollbackEmptyLedger` | lib/cloud_controller/db_migrator.rb:21-24 | `current` is `nil` iff the ledger is empty, and so is `target`. On an empty ledger the plan is `current: nil, target: nil`. |
| `DbMigrator.FirstField` | lib/cloud_controller/db_migrator.rb:22 | `split("_", 2).first` gives `nil` exactly for the empty name. For any other name it gives the prefix that contains no `_` and runs up to the first `_` or to the end. |
| `DbMigrator.VersionOf` | lib/cloud_controller/db_migrator.rb:22 | `split("_", 2).first.to_i` for one file name. It is specified by `VersionOfPrefix` and `VersionOfMigrationFile`. |
| `DbMigrator.VersionOfPrefix` | lib/cloud_controller/db_migrator.rb:22 | A file name's version is the `to_i` of its text before the first `_`, or of the whole name when it has no `_`. This includes the empty name, whose `nil` reads as 0. |
| `DbMigrator.VersionOfMigrationFile` | lib/cloud_controller/db_migrator.rb:22 | A file named `<version>_<description>`, with the version in decimal, gives exactly that version. |
| `DbMigrator.VersionOfTimestampedFile` | lib/cloud_controller/db_migrator.rb:22 | `"20130131_foo.rb"` gives version 20130131. |
| `DbMigrator.OrderIsByFileNameNotVersion` | lib/cloud_controller/db_migrator.rb:21-22 | Rows are chosen by file name, not by version. With `10_a.rb` and `9_b.rb` in the ledger, `rollback(0)` gives `current = target = 9`, although version 10 is applied. |

## Left out

- `apply_migrations` and `Sequel::Migrator.run` (lib/cloud_controller/db_migrator.rb:12-18) are a foreign library call whose code is not available. The model stops at the options hash `rollback` passes to them. It does not model how migrations are applied or undone, or how the ledger changes.
- `DBMigrator.from_config` and `initialize` (lib/cloud_controller/db_migrator.rb:2-10) set a process-wide encryption key and open a database connection. That is global state and I/O; the ledger is a parameter instead.
- Loading the Sequel migration extension, the string monkeypatch, and building the migrations directory path (lib/cloud_controller/db_migrator.rb:13-16) are library loading and file-system plumbing.
- The database collation behind `ORDER BY filename` is assumed to be lexicographic order on character codes. Locale-aware or case-insensitive collations are not modelled.
- A negative rollback count is not modelled, because `k` is a natural number. In the code, Sequel refuses a limit below 1.
- A `nil` file name is not modelled. The column is the table's key.
- `to_i` also accepts single underscores between digits. This never matters here, because the text before the first `_` has no `_` in it.
- `rollback` returns whatever `apply_migrations` returns. The model returns the plan instead.
