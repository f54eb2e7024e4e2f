/** Loading the embedded migrations: file names, order, contiguity, and the body between BEGIN and COMMIT. */
module MigrationSources {
  import opened Options
  import opened Text

  /** A directory entry with the file's contents. */
  datatype Entry = Entry(name: string, isDir: bool, contents: string)

  datatype Migration = Migration(version: int, name: string, sql: string)

  datatype LoadError = InvalidName | DuplicateVersion | EmptyMigration | NotContiguous

  // ---------- File names ----------

  predicate IsDigit(c: char) {
    '0' <= c <= '9'
  }

  predicate IsSlugChar(c: char) {
    'a' <= c <= 'z' || IsDigit(c) || c == '_'
  }

  function DigitValue(c: char): int {
    c as int - '0' as int
  }

  function MigrationVersion(name: string): Option<int> {
    if |name| < 9 || name[4] != '_' || !HasSuffix(name, ".sql") then None
    else if exists i :: 0 <= i < 4 && !IsDigit(name[i]) then None
    else
      var slug := name[5..|name| - 4];
      if slug == "" || exists i :: 0 <= i < |slug| && !IsSlugChar(slug[i]) then None
      else
        var version := 1000 * DigitValue(name[0]) + 100 * DigitValue(name[1])
                       + 10 * DigitValue(name[2]) + DigitValue(name[3]);
        if version < 1 then None else Some(version)
  }

  function Digit(n: int): char
    requires 0 <= n < 10
  {
    '0' + n as char
  }

  /** The file name of a version and a subject. */
  function FileName(version: int, slug: string): string
    requires 1 <= version <= 9999
  {
    [Digit(version / 1000), Digit(version / 100 % 10), Digit(version / 10 % 10), Digit(version % 10), '_']
    + slug + ".sql"
  }

  predicate IsSlug(slug: string) {
    slug != "" && forall i :: 0 <= i < |slug| ==>
      'a' <= slug[i] <= 'z' || '0' <= slug[i] <= '9' || slug[i] == '_'
  }

  lemma {:induction false} FourDigits(a: int, b: int, c: int, d: int)
    requires 0 <= a < 10 && 0 <= b < 10 && 0 <= c < 10 && 0 <= d < 10
    ensures var v := 1000 * a + 100 * b + 10 * c + d;
      v / 1000 == a && v / 100 % 10 == b && v / 10 % 10 == c && v % 10 == d
  {
    var v := 1000 * a + 100 * b + 10 * c + d;
    assert v / 10 == 100 * a + 10 * b + c;
    assert v / 100 == 10 * a + b;
  }

  lemma {:induction false} DigitsOf(version: int)
    requires 1 <= version <= 9999
    ensures 1000 * (version / 1000) + 100 * (version / 100 % 10) + 10 * (version / 10 % 10) + version % 10 == version
  {
    var tens := version / 10;
    var hundreds := tens / 10;
    assert hundreds == version / 100 && hundreds / 10 == version / 1000;
    assert version == 10 * tens + version % 10 && tens == 10 * hundreds + tens % 10;
    assert hundreds == 10 * (hundreds / 10) + hundreds % 10;
  }

  /** The accepted names are exactly the file names of versions 1 to 9999 with a proper subject. */
  lemma {:induction false} VersionExactly(name: string, version: int)
    ensures MigrationVersion(name) == Some(version) <==>
      1 <= version <= 9999 && exists slug :: IsSlug(slug) && name == FileName(version, slug)
  {
    if MigrationVersion(name) == Some(version) {
      var slug := name[5..|name| - 4];
      var a, b, c, d := DigitValue(name[0]), DigitValue(name[1]), DigitValue(name[2]), DigitValue(name[3]);
      assert forall i :: 0 <= i < 4 ==> IsDigit(name[i]);
      FourDigits(a, b, c, d);
      assert IsSlug(slug);
      assert name == FileName(version, slug);
    }
    if 1 <= version <= 9999 {
      if slug :| IsSlug(slug) && name == FileName(version, slug) {
        DigitsOf(version);
        assert name[|name| - 4..] == ".sql" && name[5..|name| - 4] == slug;
      }
    }
  }

  // ---------- The list ----------

  predicate IsSource(e: Entry) {
    !e.isDir && HasSuffix(e.name, ".sql")
  }

  predicate WellFormed(e: Entry) {
    MigrationVersion(e.name).Some? && !Blank(e.contents)
  }

  function ToMigration(e: Entry): Migration
    requires WellFormed(e)
  {
    Migration(MigrationVersion(e.name).value, e.name, TrimSpace(e.contents))
  }

  function Insert(m: Migration, ms: seq<Migration>): seq<Migration> {
    if ms == [] || m.version < ms[0].version then [m] + ms else [ms[0]] + Insert(m, ms[1..])
  }

  function SortByVersion(ms: seq<Migration>): seq<Migration> {
    if ms == [] then [] else Insert(ms[|ms| - 1], SortByVersion(ms[..|ms| - 1]))
  }

  ghost predicate Increasing(ms: seq<Migration>) {
    forall i, j :: 0 <= i < j < |ms| ==> ms[i].version < ms[j].version
  }

  ghost predicate DistinctVersions(ms: seq<Migration>) {
    forall i, j :: 0 <= i < j < |ms| ==> ms[i].version != ms[j].version
  }

  lemma {:induction false} InsertFacts(m: Migration, ms: seq<Migration>)
    requires Increasing(ms) && forall x :: x in ms ==> x.version != m.version
    ensures |Insert(m, ms)| == |ms| + 1 && Increasing(Insert(m, ms))
    ensures forall x :: x in Insert(m, ms) <==> x == m || x in ms
  {
    if ms == [] || m.version < ms[0].version {
    } else {
      InsertFacts(m, ms[1..]);
      var rest := Insert(m, ms[1..]);
      forall j | 0 <= j < |rest| ensures ms[0].version < rest[j].version {
        assert rest[j] in rest;
        assert ms[0] in ms;
        if rest[j] != m { assert rest[j] in ms[1..]; }
      }
    }
  }

  lemma {:induction false} SortFacts(ms: seq<Migration>)
    requires DistinctVersions(ms)
    ensures |SortByVersion(ms)| == |ms| && Increasing(SortByVersion(ms))
    ensures forall x :: x in SortByVersion(ms) <==> x in ms
    decreases |ms|
  {
    if ms != [] {
      SortFacts(ms[..|ms| - 1]);
      assert forall x :: x in ms <==> x in ms[..|ms| - 1] || x == ms[|ms| - 1];
      InsertFacts(ms[|ms| - 1], SortByVersion(ms[..|ms| - 1]));
    }
  }

  /** Increasing versions that start at least at 1 are contiguous exactly when none exceeds the length. */
  lemma {:induction false} ContiguousExactly(ms: seq<Migration>)
    requires Increasing(ms) && forall x :: x in ms ==> 1 <= x.version
    ensures (forall i :: 0 <= i < |ms| ==> ms[i].version == i + 1) <==> forall x :: x in ms ==> x.version <= |ms|
    ensures forall i :: 0 <= i < |ms| ==> i + 1 <= ms[i].version
  {
    AtLeastPosition(ms);
    if forall x :: x in ms ==> x.version <= |ms| {
      forall i | 0 <= i < |ms| ensures ms[i].version == i + 1 {
        RoomAbove(ms, i);
        assert ms[|ms| - 1] in ms;
      }
    }
  }

  lemma {:induction false} AtLeastPosition(ms: seq<Migration>)
    requires Increasing(ms) && forall x :: x in ms ==> 1 <= x.version
    ensures forall i :: 0 <= i < |ms| ==> i + 1 <= ms[i].version
    decreases |ms|
  {
    if ms != [] {
      AtLeastPosition(ms[..|ms| - 1]);
      assert ms[|ms| - 1] in ms;
      if |ms| > 1 { assert ms[|ms| - 2] == ms[..|ms| - 1][|ms| - 2]; }
    }
  }

  lemma {:induction false} RoomAbove(ms: seq<Migration>, i: nat)
    requires Increasing(ms) && i < |ms|
    ensures ms[i].version + (|ms| - 1 - i) <= ms[|ms| - 1].version
    decreases |ms| - i
  {
    if i < |ms| - 1 { RoomAbove(ms, i + 1); }
  }

  /** The first `n` entries can be loaded without a duplicate. */
  ghost predicate Loadable(entries: seq<Entry>, n: nat)
    requires n <= |entries|
  {
    && (forall i :: 0 <= i < n && IsSource(entries[i]) ==> WellFormed(entries[i]))
    && (forall i, j :: 0 <= i < j < n && IsSource(entries[i]) && IsSource(entries[j]) ==>
          MigrationVersion(entries[i].name) != MigrationVersion(entries[j].name))
  }

  /** The migrations of the first `n` entries, in directory order. */
  function Loaded(entries: seq<Entry>, n: nat): seq<Migration>
    requires n <= |entries| && forall i :: 0 <= i < n && IsSource(entries[i]) ==> WellFormed(entries[i])
  {
    if n == 0 then []
    else Loaded(entries, n - 1) + (if IsSource(entries[n - 1]) then [ToMigration(entries[n - 1])] else [])
  }

  lemma {:induction false} LoadedFacts(entries: seq<Entry>, n: nat)
    requires n <= |entries| && Loadable(entries, n)
    ensures DistinctVersions(Loaded(entries, n))
    ensures forall m :: m in Loaded(entries, n) <==>
      exists i :: 0 <= i < n && IsSource(entries[i]) && m == ToMigration(entries[i])
    ensures forall m :: m in Loaded(entries, n) ==>
      1 <= m.version && MigrationVersion(m.name) == Some(m.version) && m.sql != ""
  {
    if n > 0 {
      LoadedFacts(entries, n - 1);
      var front, all := Loaded(entries, n - 1), Loaded(entries, n);
      if IsSource(entries[n - 1]) {
        var last := ToMigration(entries[n - 1]);
        assert forall m :: m in all <==> m in front || m == last;
        forall m | m in front ensures m.version != last.version {
          var i :| 0 <= i < n - 1 && IsSource(entries[i]) && m == ToMigration(entries[i]);
        }
      }
    }
  }

  /** Files for versions 1 to n, each once: the condition under which loading succeeds. */
  ghost predicate Complete(entries: seq<Entry>) {
    && Loadable(entries, |entries|)
    && forall m :: m in Loaded(entries, |entries|) ==> m.version <= |Loaded(entries, |entries|)|
  }

  /** Some source among the first `n` entries carries this version. */
  ghost predicate Carried(entries: seq<Entry>, n: nat, version: int)
    requires n <= |entries|
  {
    exists j :: 0 <= j < n && IsSource(entries[j]) && MigrationVersion(entries[j].name) == Some(version)
  }

  ghost predicate VersionsSeen(versions: map<int, string>, entries: seq<Entry>, n: nat)
    requires n <= |entries|
  {
    forall v :: v in versions <==> Carried(entries, n, v)
  }

  lemma {:induction false} CarriedOneMore(entries: seq<Entry>, n: nat, version: int)
    requires n < |entries|
    ensures Carried(entries, n + 1, version) <==>
      Carried(entries, n, version) || (IsSource(entries[n]) && MigrationVersion(entries[n].name) == Some(version))
  {
  }

  lemma {:induction false} SeenOneMore(entries: seq<Entry>, versions: map<int, string>, n: nat)
    requires n < |entries| && VersionsSeen(versions, entries, n)
    ensures !IsSource(entries[n]) ==> VersionsSeen(versions, entries, n + 1)
    ensures IsSource(entries[n]) && MigrationVersion(entries[n].name).Some? ==>
      VersionsSeen(versions[MigrationVersion(entries[n].name).value := entries[n].name], entries, n + 1)
  {
    forall v ensures Carried(entries, n + 1, v) <==>
        Carried(entries, n, v) || (IsSource(entries[n]) && MigrationVersion(entries[n].name) == Some(v)) {
      CarriedOneMore(entries, n, v);
    }
  }

  lemma {:induction false} LoadableOneMore(entries: seq<Entry>, n: nat)
    requires n < |entries| && Loadable(entries, n)
    ensures Loadable(entries, n + 1) <==> IsSource(entries[n]) ==>
      WellFormed(entries[n]) && !Carried(entries, n, MigrationVersion(entries[n].name).value)
  {
    if IsSource(entries[n]) && WellFormed(entries[n]) && Loadable(entries, n + 1) {
      forall j | 0 <= j < n && IsSource(entries[j])
        ensures MigrationVersion(entries[j].name) != MigrationVersion(entries[n].name) {}
    }
  }

  lemma {:induction false} NotLoadableLater(entries: seq<Entry>, n: nat)
    requires n <= |entries| && !Loadable(entries, n)
    ensures !Loadable(entries, |entries|)
  {
  }

  /** Entry `i` is the first that cannot be loaded, for this reason. */
  ghost predicate StopsAt(entries: seq<Entry>, i: nat, e: LoadError) {
    && i < |entries| && Loadable(entries, i) && !Loadable(entries, i + 1)
    && match MigrationVersion(entries[i].name)
       case None => e == InvalidName
       case Some(v) => e == if Carried(entries, i, v) then DuplicateVersion else EmptyMigration
  }

  /** Reads the files in directory order. */
  method ReadMigrations(entries: seq<Entry>) returns (r: Result<seq<Migration>, LoadError>)
    ensures r.Ok? <==> Loadable(entries, |entries|)
    ensures r.Ok? ==> r.value == Loaded(entries, |entries|)
    ensures r.Err? ==> exists i :: StopsAt(entries, i, r.error)
  {
    var migrations: seq<Migration> := [];
    var versions: map<int, string> := map[];
    for i := 0 to |entries|
      invariant Loadable(entries, i) && migrations == Loaded(entries, i)
      invariant VersionsSeen(versions, entries, i)
    {
      LoadableOneMore(entries, i);
      SeenOneMore(entries, versions, i);
      if !Loadable(entries, i + 1) { NotLoadableLater(entries, i + 1); }
      var entry := entries[i];
      if entry.isDir || !HasSuffix(entry.name, ".sql") {
        continue;
      }
      var version := MigrationVersion(entry.name);
      if version.None? {
        assert StopsAt(entries, i, InvalidName);
        return Err(InvalidName);
      }
      if version.value in versions {
        assert StopsAt(entries, i, DuplicateVersion);
        return Err(DuplicateVersion);
      }
      var sql := TrimSpace(entry.contents);
      if sql == "" {
        assert StopsAt(entries, i, EmptyMigration);
        return Err(EmptyMigration);
      }
      versions := versions[version.value := entry.name];
      migrations := migrations + [Migration(version.value, entry.name, sql)];
    }
    return Ok(migrations);
  }

  /**
   Succeeds exactly when the files are well-formed and carry versions 1 to n once each; the result
   holds each file's migration, version i + 1 at position i. Otherwise the error is that of the first
   entry that cannot be loaded, or a gap in the versions when all can.
   */
  method LoadMigrations(entries: seq<Entry>) returns (r: Result<seq<Migration>, LoadError>)
    ensures r.Ok? <==> Complete(entries)
    ensures r.Ok? ==> |r.value| == |Loaded(entries, |entries|)|
    ensures r.Ok? ==> forall m :: m in r.value <==> m in Loaded(entries, |entries|)
    ensures r.Ok? ==> ValidList(r.value)
    ensures r.Ok? ==> FromFiles(entries, r.value)
    ensures r == Err(NotContiguous) <==> Loadable(entries, |entries|) && !Complete(entries)
    ensures r.Err? && r.error != NotContiguous ==> exists i :: StopsAt(entries, i, r.error)
  {
    r := ReadMigrations(entries);
    if r.Err? {
      return;
    }
    var migrations := SortByVersion(r.value);
    SortedSources(entries);
    LoadedFromFiles(entries, migrations);
    for i := 0 to |migrations|
      invariant forall j :: 0 <= j < i ==> migrations[j].version == j + 1
    {
      if migrations[i].version != i + 1 {
        return Err(NotContiguous);
      }
    }
    return Ok(migrations);
  }

  /** The migration is that file: its version, its name, and its trimmed contents. */
  predicate IsFile(m: Migration, e: Entry) {
    && !e.isDir && m.name == e.name && MigrationVersion(e.name) == Some(m.version)
    && m.sql == TrimSpace(e.contents) && m.sql != ""
  }

  /** Every migration is a file, and every `.sql` file is one of the migrations. */
  ghost predicate FromFiles(entries: seq<Entry>, ms: seq<Migration>) {
    && (forall m :: m in ms ==> exists e :: e in entries && IsFile(m, e))
    && (forall e :: e in entries && !e.isDir && HasSuffix(e.name, ".sql") ==> exists m :: m in ms && IsFile(m, e))
  }

  lemma {:induction false} LoadedFromFiles(entries: seq<Entry>, ms: seq<Migration>)
    requires Loadable(entries, |entries|) && forall m :: m in ms <==> m in Loaded(entries, |entries|)
    ensures FromFiles(entries, ms)
  {
    LoadedFacts(entries, |entries|);
    forall m | m in ms ensures exists e :: e in entries && IsFile(m, e) {
      var i :| 0 <= i < |entries| && IsSource(entries[i]) && m == ToMigration(entries[i]);
      assert entries[i] in entries && IsFile(m, entries[i]);
    }
    forall e | e in entries && IsSource(e) ensures exists m :: m in ms && IsFile(m, e) {
      var i :| 0 <= i < |entries| && entries[i] == e;
      assert ToMigration(e) in ms && IsFile(ToMigration(e), e);
    }
  }

  lemma {:induction false} SortedSources(entries: seq<Entry>)
    requires Loadable(entries, |entries|)
    ensures var loaded := Loaded(entries, |entries|);
      var sorted := SortByVersion(loaded);
      && |sorted| == |loaded| && (forall m :: m in sorted <==> m in loaded)
      && (Complete(entries) <==> forall i :: 0 <= i < |sorted| ==> sorted[i].version == i + 1)
      && (Complete(entries) ==> ValidList(sorted))
  {
    var loaded := Loaded(entries, |entries|);
    LoadedFacts(entries, |entries|);
    SortFacts(loaded);
    SortedIsValid(loaded, SortByVersion(loaded));
  }

  lemma {:induction false} SortedIsValid(loaded: seq<Migration>, sorted: seq<Migration>)
    requires |sorted| == |loaded| && Increasing(sorted) && forall m :: m in sorted <==> m in loaded
    requires forall m :: m in loaded ==> 1 <= m.version && MigrationVersion(m.name) == Some(m.version)
    ensures (forall m :: m in loaded ==> m.version <= |loaded|)
        <==> forall i :: 0 <= i < |sorted| ==> sorted[i].version == i + 1
    ensures (forall m :: m in loaded ==> m.version <= |loaded|) ==> ValidList(sorted)
  {
    ContiguousExactly(sorted);
    forall i | 0 <= i < |sorted| ensures MigrationVersion(sorted[i].name) == Some(sorted[i].version) {
      assert sorted[i] in sorted;
    }
  }

  /** A list as loading delivers it. */
  ghost predicate ValidList(ms: seq<Migration>) {
    forall i :: 0 <= i < |ms| ==> ms[i].version == i + 1 && MigrationVersion(ms[i].name) == Some(i + 1)
  }

  /** The order of the directory does not matter. */
  lemma {:induction false} DirectoryOrderIrrelevant(a: seq<Entry>, b: seq<Entry>,
      ms: seq<Migration>, ns: seq<Migration>)
    requires Complete(a) && Complete(b) && forall e :: e in a <==> e in b
    requires |ms| == |Loaded(a, |a|)| && (forall m :: m in ms <==> m in Loaded(a, |a|))
    requires |ns| == |Loaded(b, |b|)| && (forall m :: m in ns <==> m in Loaded(b, |b|))
    requires ValidList(ms) && ValidList(ns)
    ensures ms == ns
  {
    LoadedFacts(a, |a|);
    LoadedFacts(b, |b|);
    forall m ensures m in ms <==> m in ns {
      SameSources(a, b, m);
      SameSources(b, a, m);
    }
    SameVersionsSameList(ms, ns);
    SameVersionsSameList(ns, ms);
  }

  lemma {:induction false} SameSources(a: seq<Entry>, b: seq<Entry>, m: Migration)
    requires Loadable(a, |a|) && Loadable(b, |b|) && forall e :: e in a ==> e in b
    ensures m in Loaded(a, |a|) ==> m in Loaded(b, |b|)
  {
    LoadedFacts(a, |a|);
    LoadedFacts(b, |b|);
    if m in Loaded(a, |a|) {
      var i :| 0 <= i < |a| && IsSource(a[i]) && m == ToMigration(a[i]);
      assert a[i] in b;
      var j :| 0 <= j < |b| && b[j] == a[i];
    }
  }

  lemma {:induction false} SameVersionsSameList(ms: seq<Migration>, ns: seq<Migration>)
    requires (forall m :: m in ms ==> m in ns)
    requires forall i :: 0 <= i < |ms| ==> ms[i].version == i + 1
    requires forall i :: 0 <= i < |ns| ==> ns[i].version == i + 1
    ensures ms <= ns
  {
    forall i | 0 <= i < |ms| ensures i < |ns| && ms[i] == ns[i] {
      assert ms[i] in ns;
      var j :| 0 <= j < |ns| && ns[j] == ms[i];
    }
    if |ms| > 0 { assert ms[|ms| - 1] in ns; }
  }

  // ---------- The body ----------

  datatype BodyError = NoBegin | NoCommit | EmptyBody

  /** A text cannot both start with BEGIN; and end with COMMIT; unless the two do not overlap. */
  lemma {:induction false} NoOverlap(upper: string)
    requires "BEGIN;" <= upper && HasSuffix(upper, "COMMIT;")
    ensures |upper| >= 13
  {
    assert upper[|upper| - 7..][0] == 'C';
    assert forall i :: 0 <= i < 6 ==> upper[i] == "BEGIN;"[i] && "BEGIN;"[i] != 'C';
  }

  function MigrationBody(sql: string): Result<string, BodyError> {
    var trimmed := TrimSpace(sql);
    var upper := ToUpper(trimmed);
    if !("BEGIN;" <= upper) then Err(NoBegin)
    else if !HasSuffix(upper, "COMMIT;") then Err(NoCommit)
    else
      NoOverlap(upper);
      var body := TrimSpace(trimmed[6..|trimmed| - 7]);
      if body == "" then Err(EmptyBody) else Ok(body)
  }

  /** `text` is `middle` between BEGIN and COMMIT in any mix of cases. */
  predicate Wraps(text: string, opening: string, middle: string, closing: string) {
    text == opening + middle + closing && ToUpper(opening) == "BEGIN;" && ToUpper(closing) == "COMMIT;"
  }

  /** The body is what stands between the two, trimmed, and there must be something. */
  lemma {:induction false} BodyExactly(sql: string, body: string)
    ensures MigrationBody(sql) == Ok(body) <==>
      body != "" && exists opening, middle, closing ::
        Wraps(TrimSpace(sql), opening, middle, closing) && body == TrimSpace(middle)
  {
    var text := TrimSpace(sql);
    if MigrationBody(sql) == Ok(body) {
      NoOverlap(ToUpper(text));
      var opening, middle, closing := text[..6], text[6..|text| - 7], text[|text| - 7..];
      assert text == opening + middle + closing;
      assert ToUpper(opening) == ToUpper(text)[..6] && ToUpper(closing) == ToUpper(text)[|text| - 7..];
      assert Wraps(text, opening, middle, closing);
    }
    if opening, middle, closing :| Wraps(text, opening, middle, closing) && body == TrimSpace(middle) {
      UpperJoined(opening + middle, closing);
      UpperJoined(opening, middle);
      assert |opening| == |ToUpper(opening)| && |closing| == |ToUpper(closing)|;
      assert text[6..|text| - 7] == middle;
    }
  }

  /** Wrapping a trimmed body in BEGIN and COMMIT and taking it out again gives it back. */
  lemma {:induction false} BodyOfWrapped(body: string)
    requires body != "" && TrimSpace(body) == body
    ensures MigrationBody("BEGIN;" + body + "COMMIT;") == Ok(body)
  {
    var sql := "BEGIN;" + body + "COMMIT;";
    assert sql[0] == 'B' && sql[|sql| - 1] == ';';
    assert TrimSpace(sql) == sql;
    AlreadyUpper("BEGIN;");
    AlreadyUpper("COMMIT;");
    assert Wraps(sql, "BEGIN;", body, "COMMIT;");
    BodyExactly(sql, body);
  }

  lemma {:induction false} UpperJoined(a: string, b: string)
    ensures ToUpper(a + b) == ToUpper(a) + ToUpper(b)
  {
  }

  lemma {:induction false} AlreadyUpper(s: string)
    requires forall i :: 0 <= i < |s| ==> UpperChar(s[i]) == s[i]
    ensures ToUpper(s) == s
  {
  }
}
