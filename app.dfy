/**
 * The registry builder: migration file names of the form
 * `<digits>_<name>_<up|down>.<sql|go>`, the fold of a directory listing
 * into one registry fragment per version, the last version in use, and
 * the names of the files a new migration is created as.
 */
module App {
  import opened StorageTypes

  // ---------------------------------------------------------------------
  // Decimal numbers

  predicate IsDigit(c: char) {
    '0' <= c <= '9'
  }

  predicate AllDigits(s: string) {
    forall i :: 0 <= i < |s| ==> IsDigit(s[i])
  }

  function DigitValue(c: char): nat
    requires IsDigit(c)
  {
    c as int - '0' as int
  }

  function DigitChar(k: nat): (c: char)
    requires k < 10
    ensures IsDigit(c) && DigitValue(c) == k
  {
    ('0' as int + k) as char
  }

  /** The match of `^\d+`: the longest prefix of ASCII digits. */
  function LeadingDigits(s: string): (d: string)
    ensures AllDigits(d)
  {
    if s == [] || !IsDigit(s[0]) then [] else [s[0]] + LeadingDigits(s[1..])
  }

  /** `LeadingDigits` is the longest prefix of digits: it is a prefix, and what follows it is no digit. */
  lemma {:induction false} LeadingDigitsLongest(s: string)
    ensures LeadingDigits(s) <= s
    ensures |LeadingDigits(s)| < |s| ==> !IsDigit(s[|LeadingDigits(s)|])
  {
    if s != [] && IsDigit(s[0]) {
      LeadingDigitsLongest(s[1..]);
      assert s == [s[0]] + s[1..];
    }
  }

  /** `strconv.Atoi` of a digit string, without its overflow check. */
  function DecimalValue(d: string): nat
    requires AllDigits(d)
  {
    if d == [] then 0 else 10 * DecimalValue(d[..|d| - 1]) + DigitValue(d[|d| - 1])
  }

  /** The decimal digits of n, without leading zeros. */
  function Decimal(n: nat): (d: string)
    ensures |d| >= 1 && AllDigits(d) && DecimalValue(d) == n
  {
    if n < 10 then [DigitChar(n)]
    else
      var d := Decimal(n / 10) + [DigitChar(n % 10)];
      assert d[..|d| - 1] == Decimal(n / 10);
      d
  }

  function Zeros(k: nat): (z: string)
    ensures |z| == k && AllDigits(z)
  {
    if k == 0 then [] else ['0'] + Zeros(k - 1)
  }

  /** Leading zeros do not change a decimal value. */
  lemma {:induction false} LeadingZerosValue(k: nat, d: string)
    requires AllDigits(d)
    ensures AllDigits(Zeros(k) + d) && DecimalValue(Zeros(k) + d) == DecimalValue(d)
  {
    if k > 0 {
      LeadingZerosValue(k - 1, d);
      LeadingZeroValue(Zeros(k - 1) + d);
      assert Zeros(k) + d == ['0'] + (Zeros(k - 1) + d);
    } else {
      assert Zeros(k) + d == d;
    }
  }

  lemma {:induction false} LeadingZeroValue(d: string)
    requires AllDigits(d)
    ensures AllDigits(['0'] + d) && DecimalValue(['0'] + d) == DecimalValue(d)
    decreases |d|
  {
    if d != [] {
      LeadingZeroValue(d[..|d| - 1]);
      assert (['0'] + d)[..|d|] == ['0'] + d[..|d| - 1];
    }
  }

  /** `%05d`: at least five characters, zero-padded after the sign. */
  function Pad5(v: int): string {
    if v >= 0 then
      var d := Decimal(v);
      if |d| >= 5 then d else Zeros(5 - |d|) + d
    else
      var d := Decimal(-v);
      "-" + (if |d| >= 4 then d else Zeros(4 - |d|) + d)
  }

  /** A non-negative version is printed as digits only, and reads back as itself. */
  lemma Pad5Value(v: nat)
    ensures AllDigits(Pad5(v)) && |Pad5(v)| >= 5 && DecimalValue(Pad5(v)) == v
  {
    var d := Decimal(v);
    if |d| < 5 {
      LeadingZerosValue(5 - |d|, d);
    }
  }

  // ---------------------------------------------------------------------
  // strings.Split and strings.Join on "_"

  /** `strings.Split(s, "_")`: the pieces between separators, one more than there are separators. */
  function Split(s: string): (parts: seq<string>)
    ensures |parts| >= 1
  {
    if s == [] then [""]
    else
      var rest := Split(s[1..]);
      if s[0] == '_' then [""] + rest else [[s[0]] + rest[0]] + rest[1..]
  }

  /** No piece holds a separator. */
  lemma {:induction false} SplitPiecesHaveNoSeparator(s: string)
    ensures forall i :: 0 <= i < |Split(s)| ==> '_' !in Split(s)[i]
  {
    if s != [] {
      SplitPiecesHaveNoSeparator(s[1..]);
      var rest := Split(s[1..]);
      if s[0] != '_' {
        assert '_' !in [s[0]] + rest[0];
      }
    }
  }

  /** `strings.Join(parts, "_")`. */
  function Join(parts: seq<string>): string {
    if parts == [] then ""
    else if |parts| == 1 then parts[0]
    else parts[0] + "_" + Join(parts[1..])
  }

  /** Joining the pieces gives back the string. */
  lemma {:induction false} JoinSplit(s: string)
    ensures Join(Split(s)) == s
  {
    if s != [] {
      JoinSplit(s[1..]);
      var rest := Split(s[1..]);
      if s[0] != '_' && |rest| > 1 {
        assert ([[s[0]] + rest[0]] + rest[1..])[1..] == rest[1..];
      }
    }
  }

  /** A separator between two strings separates their pieces. */
  lemma {:induction false} SplitAround(a: string, b: string)
    ensures Split(a + "_" + b) == Split(a) + Split(b)
  {
    if a == [] {
      assert a + "_" + b == ['_'] + b;
      SplitCons('_', b);
    } else {
      var c, t := a[0], a[1..];
      SplitAround(t, b);
      assert a + "_" + b == [c] + (t + "_" + b);
      assert a == [c] + t;
      SplitCons(c, t + "_" + b);
      SplitCons(c, t);
      SplitConsAround(c, Split(t), Split(b));
    }
  }

  /** One step of `Split`: the first character either starts a new piece or joins the first one. */
  lemma SplitCons(c: char, t: string)
    ensures Split([c] + t) == if c == '_' then [""] + Split(t) else [[c] + Split(t)[0]] + Split(t)[1..]
  {
    assert ([c] + t)[1..] == t;
  }

  lemma SplitConsAround(c: char, left: seq<string>, right: seq<string>)
    requires |left| >= 1
    ensures (if c == '_' then [""] + (left + right) else [[c] + (left + right)[0]] + (left + right)[1..])
         == (if c == '_' then [""] + left else [[c] + left[0]] + left[1..]) + right
  {
    if c != '_' {
      assert (left + right)[1..] == left[1..] + right;
    }
  }

  lemma {:induction false} SplitWhole(a: string)
    requires '_' !in a
    ensures Split(a) == [a]
  {
    if a != [] {
      SplitWhole(a[1..]);
      assert [a[0]] + a[1..] == a;
    }
  }

  // ---------------------------------------------------------------------
  // File names

  datatype Kind = UpSql | DownSql | UpGo | DownGo

  /** The tail after the name, as the four patterns `_up\.sql$` ... require. */
  function Tail(k: Kind): string {
    match k
    case UpSql => "up.sql"
    case DownSql => "down.sql"
    case UpGo => "up.go"
    case DownGo => "down.go"
  }

  function Suffix(k: Kind): string {
    "_" + Tail(k)
  }

  /**
   * `^.+_up\.sql$` and its three siblings: at least one character, none
   * of them a line break, then the suffix at the very end.
   */
  predicate MatchesKind(fileName: string, k: Kind) {
    var n := |fileName| - |Suffix(k)|;
    n >= 1 && fileName[n..] == Suffix(k) && forall i :: 0 <= i < n ==> fileName[i] != '\n'
  }

  predicate EndsWith(fileName: string, k: Kind) {
    |fileName| >= |Suffix(k)| && fileName[|fileName| - |Suffix(k)|..] == Suffix(k)
  }

  /** The first pattern that matches, in the order `processMigrationFile` tries them. */
  function ClassifyName(fileName: string): Option<Kind> {
    if MatchesKind(fileName, UpSql) then Some(UpSql)
    else if MatchesKind(fileName, DownSql) then Some(DownSql)
    else if MatchesKind(fileName, UpGo) then Some(UpGo)
    else if MatchesKind(fileName, DownGo) then Some(DownGo)
    else None
  }

  /** No file name matches two patterns, so the order of the cases does not matter. */
  lemma ClassifyNameExact(fileName: string, k: Kind)
    ensures ClassifyName(fileName) == Some(k) <==> MatchesKind(fileName, k)
  {
    if MatchesKind(fileName, k) {
      forall k' | MatchesKind(fileName, k') ensures k' == k {
        OneKind(fileName, k, k');
      }
    }
  }

  /** No file name ends with two of the four suffixes. */
  lemma OneKind(fileName: string, k: Kind, k': Kind)
    requires EndsWith(fileName, k) && EndsWith(fileName, k')
    ensures k == k'
  {
    var n := |fileName|;
    var s, s' := Suffix(k), Suffix(k');
    assert fileName[n - 1] == s[|s| - 1] == s'[|s'| - 1];
    assert fileName[n - 5] == s[|s| - 5] == s'[|s'| - 5];
  }

  /**
   * `parseFileName`: the value of the leading digits as the version, and
   * the pieces strictly between the first and the last `_` as the name.
   */
  function ParseFileName(fileName: string): Result<(int, string)> {
    var digits := LeadingDigits(fileName);
    if digits == [] then Failure(ErrInvalidMigrationName)
    else
      var parts := Split(fileName);
      if |parts| < 3 then Failure(ErrInvalidMigrationName)
      else Success((DecimalValue(digits), Join(parts[1..|parts| - 1])))
  }

  /** `fmt.Sprintf("%05d_%s_up.sql", version, name)` and the other three formats. */
  function FileName(version: int, name: string, k: Kind): string {
    Pad5(version) + "_" + name + Suffix(k)
  }

  /** Parsing a created file name gives back its version and name, whatever the name holds. */
  lemma ParseFileNameRoundTrip(version: nat, name: string, k: Kind)
    ensures ParseFileName(FileName(version, name, k)) == Success((version, name))
  {
    var p := Pad5(version);
    var f := FileName(version, name, k);
    Pad5Value(version);
    FileNameDigits(p, name, k);
    FileNamePieces(p, name, k);
    var parts := Split(f);
    assert parts[1..|parts| - 1] == Split(name);
    JoinSplit(name);
  }

  lemma FileNameDigits(p: string, name: string, k: Kind)
    requires AllDigits(p)
    ensures LeadingDigits(p + "_" + name + Suffix(k)) == p
  {
    var rest := "_" + name + Suffix(k);
    assert p + "_" + name + Suffix(k) == p + rest;
    LeadingDigitsOf(p, rest);
  }

  /** The pieces of a created file name: the number, the pieces of the name, and the tail. */
  lemma FileNamePieces(p: string, name: string, k: Kind)
    requires AllDigits(p)
    ensures Split(p + "_" + name + Suffix(k)) == [p] + Split(name) + [Tail(k)]
  {
    assert p + "_" + name + Suffix(k) == p + "_" + (name + "_" + Tail(k));
    SplitAround(p, name + "_" + Tail(k));
    SplitAround(name, Tail(k));
    DigitsHaveNoSeparator(p);
    SplitWhole(p);
    TailHasNoSeparator(k);
    SplitWhole(Tail(k));
  }

  lemma DigitsHaveNoSeparator(p: string)
    requires AllDigits(p)
    ensures '_' !in p
  {
    forall i | 0 <= i < |p| ensures p[i] != '_' { assert IsDigit(p[i]); }
  }

  lemma TailHasNoSeparator(k: Kind)
    ensures '_' !in Tail(k)
  {
    match k
    case UpSql => assert Tail(k) == "up.sql";
    case DownSql => assert Tail(k) == "down.sql";
    case UpGo => assert Tail(k) == "up.go";
    case DownGo => assert Tail(k) == "down.go";
  }

  lemma {:induction false} LeadingDigitsOf(d: string, rest: string)
    requires AllDigits(d) && rest != [] && !IsDigit(rest[0])
    ensures LeadingDigits(d + rest) == d
  {
    if d == [] {
      assert d + rest == rest;
    } else {
      LeadingDigitsOf(d[1..], rest);
      assert d + rest == [d[0]] + (d[1..] + rest);
      LeadingDigitsCons(d[0], d[1..] + rest);
      assert [d[0]] + d[1..] == d;
    }
  }

  /** One step of `LeadingDigits`: a leading digit is kept and the rest scanned. */
  lemma LeadingDigitsCons(c: char, t: string)
    requires IsDigit(c)
    ensures LeadingDigits([c] + t) == [c] + LeadingDigits(t)
  {
    assert ([c] + t)[1..] == t;
  }

  /** A created file name is classified as the kind it was created as, unless the name holds a line break. */
  lemma ClassifyRoundTrip(version: nat, name: string, k: Kind)
    ensures ClassifyName(FileName(version, name, k)) == (if '\n' in name then None else Some(k))
  {
    var f := FileName(version, name, k);
    Pad5Value(version);
    FileNameEnds(Pad5(version), name, k);
    if '\n' in name {
      BrokenNameMatchesNothing(f, |Pad5(version)| + 1, name, k);
    } else {
      WholeNameMatches(f, Pad5(version), name, k);
      ClassifyNameExact(f, k);
    }
  }

  lemma FileNameEnds(p: string, name: string, k: Kind)
    ensures var f := p + "_" + name + Suffix(k);
      EndsWith(f, k) && f[..|f| - |Suffix(k)|] == p + "_" + name
  {
  }

  /** A line break before the suffix defeats every pattern. */
  lemma BrokenNameMatchesNothing(f: string, start: nat, name: string, k: Kind)
    requires EndsWith(f, k) && '\n' in name
    requires start + |name| + |Suffix(k)| == |f| && f[start..start + |name|] == name
    ensures ClassifyName(f) == None
  {
    var j :| 0 <= j < |name| && name[j] == '\n';
    assert f[start + j] == '\n';
    forall k' ensures !MatchesKind(f, k') {
      if EndsWith(f, k') {
        OneKind(f, k, k');
      }
    }
  }

  lemma WholeNameMatches(f: string, p: string, name: string, k: Kind)
    requires AllDigits(p) && '\n' !in name && |p| >= 1
    requires EndsWith(f, k) && f[..|f| - |Suffix(k)|] == p + "_" + name
    ensures MatchesKind(f, k)
  {
    var n := |f| - |Suffix(k)|;
    forall i | 0 <= i < n ensures f[i] != '\n' {
      assert f[i] == (p + "_" + name)[i];
      if i < |p| { assert IsDigit(p[i]); }
      else if i > |p| { assert f[i] == name[i - |p| - 1]; }
    }
  }

  /**
   * A name is accepted exactly when it starts with a digit and holds at
   * least two `_`; anything else is `ErrInvalidMigrationName`. The
   * version is the value of the whole leading digit run, and the name is
   * the text between the first and the last `_`.
   */
  lemma ParseFileNameSpec(fileName: string)
    ensures ParseFileName(fileName).Success? <==>
      |fileName| > 0 && IsDigit(fileName[0]) && |Split(fileName)| >= 3
    ensures ParseFileName(fileName).Failure? ==> ParseFileName(fileName).error == ErrInvalidMigrationName
    ensures ParseFileName(fileName).Success? ==>
      var d, parts := LeadingDigits(fileName), Split(fileName);
      var (version, name) := ParseFileName(fileName).value;
      && d <= fileName && (|d| < |fileName| ==> !IsDigit(fileName[|d|])) && version == DecimalValue(d)
      && '_' !in parts[0] && '_' !in parts[|parts| - 1]
      && fileName == parts[0] + "_" + name + "_" + parts[|parts| - 1]
  {
    LeadingDigitsLongest(fileName);
    var parts := Split(fileName);
    if |parts| >= 3 {
      SplitPiecesHaveNoSeparator(fileName);
      JoinSplit(fileName);
      MiddleOfPieces(fileName, parts);
    }
  }

  /** With at least three pieces, the string is the first piece, the middle ones re-joined, and the last. */
  lemma MiddleOfPieces(s: string, parts: seq<string>)
    requires |parts| >= 3 && Join(parts) == s
    ensures s == parts[0] + "_" + Join(parts[1..|parts| - 1]) + "_" + parts[|parts| - 1]
  {
    var tail := parts[1..];
    assert Join(parts) == parts[0] + "_" + Join(tail);
    JoinLast(tail);
    assert tail[..|tail| - 1] == parts[1..|parts| - 1] && tail[|tail| - 1] == parts[|parts| - 1];
    Regroup(s, parts[0], Join(tail), Join(parts[1..|parts| - 1]), parts[|parts| - 1]);
  }

  lemma Regroup(j: string, first: string, jt: string, jm: string, last: string)
    requires j == first + "_" + jt && jt == jm + "_" + last
    ensures j == first + "_" + jm + "_" + last
  {
  }

  /** The last piece is joined on after one more separator. */
  lemma {:induction false} JoinLast(parts: seq<string>)
    requires |parts| >= 2
    ensures Join(parts) == Join(parts[..|parts| - 1]) + "_" + parts[|parts| - 1]
  {
    if |parts| > 2 {
      JoinLast(parts[1..]);
      assert parts[1..][..|parts| - 2] == parts[..|parts| - 1][1..];
    }
  }

  /** A negative version is printed with a sign, and a name starting with a sign is rejected. */
  lemma NegativeVersionRejected(version: int, name: string, k: Kind)
    requires version < 0
    ensures FileName(version, name, k)[0] == '-'
    ensures ParseFileName(FileName(version, name, k)) == Failure(ErrInvalidMigrationName)
  {
    assert FileName(version, name, k)[0] == '-';
  }

  /** The name the tests expect for the first migration called `create_users`. */
  lemma FirstSqlFileName()
    ensures FileName(1, "create_users", UpSql) == "00001_create_users_up.sql"
    ensures FileName(1, "create_users", DownSql) == "00001_create_users_down.sql"
  {
    PadOne();
    SqlSuffixes();
    FirstUpName();
    FirstDownName();
  }

  lemma FirstUpName()
    requires Pad5(1) == "00001" && Suffix(UpSql) == "_up.sql"
    ensures FileName(1, "create_users", UpSql) == "00001_create_users_up.sql"
  {
    FileNameOf(1, "00001", "create_users", UpSql, "_up.sql");
    assert "00001" + "_" + "create_users" + "_up.sql" == "00001_create_users_up.sql";
  }

  lemma FirstDownName()
    requires Pad5(1) == "00001" && Suffix(DownSql) == "_down.sql"
    ensures FileName(1, "create_users", DownSql) == "00001_create_users_down.sql"
  {
    FileNameOf(1, "00001", "create_users", DownSql, "_down.sql");
    assert "00001" + "_" + "create_users" + "_down.sql" == "00001_create_users_down.sql";
  }

  lemma FileNameOf(version: int, padded: string, name: string, k: Kind, suffix: string)
    requires Pad5(version) == padded && Suffix(k) == suffix
    ensures FileName(version, name, k) == padded + "_" + name + suffix
  {
  }

  lemma SqlSuffixes()
    ensures Suffix(UpSql) == "_up.sql" && Suffix(DownSql) == "_down.sql"
  {
  }

  lemma PadOne()
    ensures Pad5(1) == "00001"
  {
    assert DigitChar(1) == '1';
    assert Decimal(1) == "1";
    assert Zeros(4) == "0000";
  }

  // ---------------------------------------------------------------------
  // Registry fragments

  /**
   * `processMigrationFile`: a fragment of version and name holding the
   * one body the file's kind names; a `.go` file becomes a script run by
   * file name. A name matching no pattern is rejected.
   */
  function ProcessMigrationFile(fileName: string, content: string, version: int, name: string): (r: Result<Migration>)
    ensures r.Success? ==> r.value.version == version && r.value.name == name && r.value.status == NoStatus
  {
    match ClassifyName(fileName)
    case None => Failure(ErrInvalidMigrationName)
    case Some(UpSql) => Success(Migration(version, name, NoStatus, 0, content, "", None, None))
    case Some(DownSql) => Success(Migration(version, name, NoStatus, 0, "", content, None, None))
    case Some(UpGo) => Success(Migration(version, name, NoStatus, 0, "", "", Some(Script(fileName)), None))
    case Some(DownGo) => Success(Migration(version, name, NoStatus, 0, "", "", None, Some(Script(fileName))))
  }

  /**
   * A file is rejected exactly when its name matches none of the four
   * patterns, and otherwise only the body of its kind is present: the
   * file's content for SQL, a script run by the file's name for Go.
   */
  lemma ProcessMigrationFileKinds(fileName: string, content: string, version: int, name: string)
    ensures var r := ProcessMigrationFile(fileName, content, version, name);
      && (r.Failure? <==> ClassifyName(fileName).None?)
      && (r.Failure? ==> r.error == ErrInvalidMigrationName)
      && (r.Success? ==>
            && (r.value.up != "" ==> ClassifyName(fileName) == Some(UpSql))
            && (r.value.down != "" ==> ClassifyName(fileName) == Some(DownSql))
            && (r.value.upGo.Some? <==> ClassifyName(fileName) == Some(UpGo))
            && (r.value.downGo.Some? <==> ClassifyName(fileName) == Some(DownGo))
            && (ClassifyName(fileName) == Some(UpSql) ==> r.value.up == content && r.value.down == "")
            && (ClassifyName(fileName) == Some(DownSql) ==> r.value.down == content && r.value.up == "")
            && (ClassifyName(fileName) == Some(UpGo) ==>
                  r.value.upGo == Some(Script(fileName)) && r.value.up == "" && r.value.down == "")
            && (ClassifyName(fileName) == Some(DownGo) ==>
                  r.value.downGo == Some(Script(fileName)) && r.value.up == "" && r.value.down == ""))
  {
  }

  /** `mergeMigrations`: each body of the incoming fragment that is present replaces the existing one. */
  function Merge(existing: Migration, incoming: Migration): (m: Migration)
    ensures m.version == existing.version && m.name == existing.name
    ensures m.status == existing.status && m.changedAt == existing.changedAt
    ensures (existing.up != "" ==> m.up != "") && (existing.down != "" ==> m.down != "")
    ensures (existing.upGo.Some? ==> m.upGo.Some?) && (existing.downGo.Some? ==> m.downGo.Some?)
    ensures (incoming.up != "" ==> m.up == incoming.up) && (incoming.up == "" ==> m.up == existing.up)
    ensures (incoming.down != "" ==> m.down == incoming.down) && (incoming.down == "" ==> m.down == existing.down)
    ensures (incoming.upGo.Some? ==> m.upGo == incoming.upGo) && (incoming.upGo.None? ==> m.upGo == existing.upGo)
    ensures (incoming.downGo.Some? ==> m.downGo == incoming.downGo) && (incoming.downGo.None? ==> m.downGo == existing.downGo)
  {
    existing.(up := if incoming.up != "" then incoming.up else existing.up,
              down := if incoming.down != "" then incoming.down else existing.down,
              upGo := if incoming.upGo.Some? then incoming.upGo else existing.upGo,
              downGo := if incoming.downGo.Some? then incoming.downGo else existing.downGo)
  }

  /** Merging the same fragment again changes nothing. */
  lemma MergeIdempotent(existing: Migration, incoming: Migration)
    ensures Merge(Merge(existing, incoming), incoming) == Merge(existing, incoming)
  {
  }

  /** No body is present in both fragments. */
  predicate DisjointBodies(a: Migration, b: Migration) {
    && (a.up == "" || b.up == "") && (a.down == "" || b.down == "")
    && (a.upGo.None? || b.upGo.None?) && (a.downGo.None? || b.downGo.None?)
  }

  /** Fragments with no body in common merge in either order to the same entry. */
  lemma MergeCommutes(existing: Migration, a: Migration, b: Migration)
    requires DisjointBodies(a, b)
    ensures Merge(Merge(existing, a), b) == Merge(Merge(existing, b), a)
  {
  }

  /** Files of two different kinds give fragments with no body in common. */
  lemma DifferentKindsDisjoint(fa: string, ca: string, fb: string, cb: string, version: int, name: string)
    requires ProcessMigrationFile(fa, ca, version, name).Success?
    requires ProcessMigrationFile(fb, cb, version, name).Success?
    requires ClassifyName(fa) != ClassifyName(fb)
    ensures DisjointBodies(ProcessMigrationFile(fa, ca, version, name).value, ProcessMigrationFile(fb, cb, version, name).value)
  {
    ProcessMigrationFileKinds(fa, ca, version, name);
    ProcessMigrationFileKinds(fb, cb, version, name);
  }

  // ---------------------------------------------------------------------
  // getMigrations

  /** A directory entry as the registry builder reads it: its name and its content. */
  type DirFile = (string, string)

  /** What one file contributes: its parsed, classified fragment, or the error that stops the build. */
  function FileFragment(file: DirFile): (r: Result<Migration>) {
    match ParseFileName(file.0)
    case Failure(e) => Failure(e)
    case Success(p) => ProcessMigrationFile(file.0, file.1, p.0, p.1)
  }

  /** The fragments of a listing, one per file, in directory order. */
  function Fragments(files: seq<DirFile>): (frags: seq<Result<Migration>>)
    ensures |frags| == |files|
    ensures forall j :: 0 <= j < |files| ==> frags[j] == FileFragment(files[j])
  {
    seq(|files|, j requires 0 <= j < |files| => FileFragment(files[j]))
  }

  /** Add a fragment under its version, merging it into an entry already there. */
  function AddFragment(m: map<int, Migration>, fragment: Migration): map<int, Migration> {
    var v := fragment.version;
    if v in m then m[v := Merge(m[v], fragment)] else m[v := fragment]
  }

  /** The fold of `getMigrations`: the first error stops it, every fragment is added in order. */
  function Fold(frags: seq<Result<Migration>>): Result<map<int, Migration>>
    decreases |frags|
  {
    if frags == [] then Success(map[])
    else
      match Fold(frags[..|frags| - 1])
      case Failure(e) => Failure(e)
      case Success(m) =>
        match frags[|frags| - 1]
        case Failure(e) => Failure(e)
        case Success(fragment) => Success(AddFragment(m, fragment))
  }

  /** The registry `getMigrations` builds from the files in directory order. */
  function Registry(files: seq<DirFile>): Result<map<int, Migration>> {
    Fold(Fragments(files))
  }

  /** `getMigrations` over an already read directory. */
  method GetMigrations(files: seq<DirFile>) returns (r: Result<map<int, Migration>>)
    ensures r == Registry(files)
  {
    ghost var frags := Fragments(files);
    var migrations: map<int, Migration> := map[];
    var i := 0;
    while i < |files|
      invariant 0 <= i <= |files|
      invariant Fold(frags[..i]) == Success(migrations)
    {
      assert frags[..i + 1][..i] == frags[..i];
      var (fileName, content) := files[i];
      var parsed := ParseFileName(fileName);
      if parsed.Failure? {
        assert frags[i] == Failure(parsed.error);
        FoldStaysFailed(frags, i + 1);
        return Failure(parsed.error);
      }
      var (version, migrationName) := parsed.value;
      var migration := ProcessMigrationFile(fileName, content, version, migrationName);
      assert frags[i] == migration;
      if migration.Failure? {
        FoldStaysFailed(frags, i + 1);
        return Failure(migration.error);
      }
      if version in migrations {
        migrations := migrations[version := Merge(migrations[version], migration.value)];
      } else {
        migrations := migrations[version := migration.value];
      }
      i := i + 1;
    }
    assert frags[..|files|] == frags;
    return Success(migrations);
  }

  /** Once a fragment is an error, the whole fold is. */
  lemma {:induction false} FoldStaysFailed(frags: seq<Result<Migration>>, i: nat)
    requires i <= |frags| && Fold(frags[..i]).Failure?
    ensures Fold(frags) == Fold(frags[..i])
    decreases |frags| - i
  {
    if i < |frags| {
      assert frags[..i + 1][..i] == frags[..i];
      FoldStaysFailed(frags, i + 1);
    } else {
      assert frags[..i] == frags;
    }
  }

  /** All or nothing: the fold succeeds exactly when every fragment does, else it fails with the first error. */
  lemma {:induction false} FoldAllOrNothing(frags: seq<Result<Migration>>)
    ensures Fold(frags).Success? <==> forall j :: 0 <= j < |frags| ==> frags[j].Success?
    ensures Fold(frags).Failure? ==>
      exists j :: 0 <= j < |frags| && frags[j] == Failure(Fold(frags).error) &&
        forall j' :: 0 <= j' < j ==> frags[j'].Success?
    decreases |frags|
  {
    if frags != [] {
      var front := frags[..|frags| - 1];
      FoldAllOrNothing(front);
      assert forall j :: 0 <= j < |front| ==> front[j] == frags[j];
    }
  }

  /** A built registry has one entry per fragment version, keyed by that version. */
  lemma {:induction false} FoldKeys(frags: seq<Result<Migration>>)
    requires Fold(frags).Success?
    ensures forall j :: 0 <= j < |frags| ==> frags[j].Success?
    ensures forall v :: v in Fold(frags).value <==> exists j :: 0 <= j < |frags| && frags[j].value.version == v
    ensures forall v :: v in Fold(frags).value ==> Fold(frags).value[v].version == v
    decreases |frags|
  {
    if frags != [] {
      var n := |frags| - 1;
      var front := frags[..n];
      FoldStep(frags);
      FoldKeys(front);
      KeysStep(front, frags, Fold(front).value, Fold(frags).value);
    }
  }

  /** The last step of a successful fold: the front succeeded and the last fragment was added to it. */
  lemma FoldStep(frags: seq<Result<Migration>>)
    requires frags != [] && Fold(frags).Success?
    ensures Fold(frags[..|frags| - 1]).Success? && frags[|frags| - 1].Success?
    ensures Fold(frags).value == AddFragment(Fold(frags[..|frags| - 1]).value, frags[|frags| - 1].value)
  {
  }

  /** What adding a fragment does to the map: one key more, the other entries, names and versions kept. */
  lemma AddFragmentEntries(m0: map<int, Migration>, fragment: Migration)
    ensures var m, v := AddFragment(m0, fragment), fragment.version;
      && m.Keys == m0.Keys + {v}
      && m[v].version == (if v in m0 then m0[v].version else v)
      && m[v].name == (if v in m0 then m0[v].name else fragment.name)
      && forall u :: u in m0 && u != v ==> m[u] == m0[u]
  {
  }

  lemma KeysStep(front: seq<Result<Migration>>, frags: seq<Result<Migration>>, m0: map<int, Migration>, m: map<int, Migration>)
    requires |frags| >= 1 && front == frags[..|frags| - 1] && frags[|frags| - 1].Success?
    requires m == AddFragment(m0, frags[|frags| - 1].value)
    requires forall j :: 0 <= j < |front| ==> front[j].Success?
    requires forall v :: v in m0 <==> exists j :: 0 <= j < |front| && front[j].value.version == v
    requires forall v :: v in m0 ==> m0[v].version == v
    ensures forall j :: 0 <= j < |frags| ==> frags[j].Success?
    ensures forall v :: v in m <==> exists j :: 0 <= j < |frags| && frags[j].value.version == v
    ensures forall v :: v in m ==> m[v].version == v
  {
    var n := |front|;
    var v0 := frags[n].value.version;
    AddFragmentEntries(m0, frags[n].value);
    assert forall j :: 0 <= j < n ==> front[j] == frags[j];
    forall v | v in m ensures exists j :: 0 <= j < |frags| && frags[j].value.version == v {
      if v != v0 {
        var j :| 0 <= j < n && front[j].value.version == v;
        assert frags[j] == front[j];
      }
    }
  }

  /** Fragment j is the first of its version in the listing. */
  predicate FirstOfVersion(frags: seq<Result<Migration>>, j: int)
    requires forall j :: 0 <= j < |frags| ==> frags[j].Success?
  {
    0 <= j < |frags| && forall j' :: 0 <= j' < j ==> frags[j'].value.version != frags[j].value.version
  }

  /** The first fragment of a version fixes the name of that version's entry; later ones only add bodies. */
  lemma {:induction false} FoldFirstName(frags: seq<Result<Migration>>)
    requires Fold(frags).Success?
    ensures forall j :: 0 <= j < |frags| ==> frags[j].Success?
    ensures forall j :: FirstOfVersion(frags, j) ==>
              frags[j].value.version in Fold(frags).value &&
              Fold(frags).value[frags[j].value.version].name == frags[j].value.name
    decreases |frags|
  {
    FoldKeys(frags);
    if frags != [] {
      var n := |frags| - 1;
      var front := frags[..n];
      FoldStep(frags);
      FoldFirstName(front);
      FoldKeys(front);
      NamesStep(front, frags, Fold(front).value, Fold(frags).value);
    }
  }

  lemma NamesStep(front: seq<Result<Migration>>, frags: seq<Result<Migration>>, m0: map<int, Migration>, m: map<int, Migration>)
    requires |frags| >= 1 && front == frags[..|frags| - 1]
    requires forall j :: 0 <= j < |frags| ==> frags[j].Success?
    requires m == AddFragment(m0, frags[|frags| - 1].value)
    requires forall v :: v in m0 <==> exists j :: 0 <= j < |front| && front[j].value.version == v
    requires forall j :: FirstOfVersion(front, j) ==>
               front[j].value.version in m0 && m0[front[j].value.version].name == front[j].value.name
    ensures forall j :: FirstOfVersion(frags, j) ==>
              frags[j].value.version in m && m[frags[j].value.version].name == frags[j].value.name
  {
    var n := |front|;
    AddFragmentEntries(m0, frags[n].value);
    forall j | FirstOfVersion(frags, j)
      ensures frags[j].value.version in m && m[frags[j].value.version].name == frags[j].value.name
    {
      var v := frags[j].value.version;
      if j < n {
        assert front[j] == frags[j];
        forall j' | 0 <= j' < j ensures front[j'].value.version != v {
          assert front[j'] == frags[j'];
        }
        assert FirstOfVersion(front, j);
      } else if v in m0 {
        assert false;
      }
    }
  }

  /** A file's fragment exists exactly when its name is accepted, and carries the parsed version and name. */
  lemma FileFragmentOf(file: DirFile)
    ensures FileFragment(file).Success? <==> ParseFileName(file.0).Success? && ClassifyName(file.0).Some?
    ensures FileFragment(file).Failure? ==> FileFragment(file).error == ErrInvalidMigrationName
    ensures FileFragment(file).Success? ==>
      (FileFragment(file).value.version, FileFragment(file).value.name) == ParseFileName(file.0).value
  {
    if ParseFileName(file.0).Success? {
      var p := ParseFileName(file.0).value;
      ProcessMigrationFileKinds(file.0, file.1, p.0, p.1);
    }
  }

  /** A listing is refused with the name error exactly when one of its files is; otherwise every file is in. */
  lemma RegistryAllOrNothing(files: seq<DirFile>)
    ensures Registry(files).Success? <==>
      forall j :: 0 <= j < |files| ==> ParseFileName(files[j].0).Success? && ClassifyName(files[j].0).Some?
    ensures Registry(files).Failure? ==> Registry(files).error == ErrInvalidMigrationName
  {
    var frags := Fragments(files);
    FoldAllOrNothing(frags);
    forall j | 0 <= j < |files| {
      FileFragmentOf(files[j]);
    }
  }

  // ---------------------------------------------------------------------
  // getLastVersion and Create

  /** The version read from a name by `^\d+`, when the name starts with a digit. */
  function LeadingVersion(fileName: string): Option<nat> {
    var d := LeadingDigits(fileName);
    if d == [] then None else Some(DecimalValue(d))
  }

  /** The largest leading version among the names, or 0 when none has one. */
  function LastVersion(names: seq<string>): nat
    decreases |names|
  {
    if names == [] then 0
    else
      var rest := LastVersion(names[..|names| - 1]);
      match LeadingVersion(names[|names| - 1])
      case Some(v) => if v > rest then v else rest
      case None => rest
  }

  /** `LastVersion` is the maximum: no name has a larger version, and a non-zero result is some name's. */
  lemma {:induction false} LastVersionIsMax(names: seq<string>)
    ensures forall j :: 0 <= j < |names| && LeadingVersion(names[j]).Some? ==>
              LeadingVersion(names[j]).value <= LastVersion(names)
    ensures LastVersion(names) == 0 ||
            exists j :: 0 <= j < |names| && LeadingVersion(names[j]) == Some(LastVersion(names))
    decreases |names|
  {
    if names != [] {
      var front := names[..|names| - 1];
      LastVersionIsMax(front);
      assert forall j :: 0 <= j < |front| ==> front[j] == names[j];
      if LastVersion(names) != 0 && LastVersion(names) == LastVersion(front) {
        var j :| 0 <= j < |front| && LeadingVersion(front[j]) == Some(LastVersion(front));
        assert names[j] == front[j];
      }
    }
  }

  /** `getLastVersion` over the names of a directory's entries. */
  method GetLastVersion(names: seq<string>) returns (lastVersion: int)
    ensures lastVersion == LastVersion(names)
  {
    lastVersion := 0;
    var i := 0;
    while i < |names|
      invariant 0 <= i <= |names|
      invariant lastVersion == LastVersion(names[..i])
    {
      assert names[..i + 1][..i] == names[..i];
      var strVersion := LeadingDigits(names[i]);
      if strVersion != "" {
        var version := DecimalValue(strVersion);
        if version > lastVersion {
          lastVersion := version;
        }
      }
      i := i + 1;
    }
    assert names[..|names|] == names;
  }

  /** `createMigrationFiles`: the names of the up and down files of a type, or the type error. */
  function MigrationFiles(version: int, name: string, migrationType: string): Result<seq<string>> {
    if migrationType == "sql" then Success([FileName(version, name, UpSql), FileName(version, name, DownSql)])
    else if migrationType == "go" then Success([FileName(version, name, UpGo), FileName(version, name, DownGo)])
    else Failure(UnsupportedMigrationType)
  }

  /** `Create`: the files of a new migration numbered one past the last version in the directory. */
  method Create(dirNames: seq<string>, name: string, migrationType: string) returns (r: Result<seq<string>>)
    ensures r == MigrationFiles(LastVersion(dirNames) + 1, name, migrationType)
  {
    var lastVersion := GetLastVersion(dirNames);
    lastVersion := lastVersion + 1;
    r := MigrationFiles(lastVersion, name, migrationType);
  }

  /**
   * `createMigrationFiles` names exactly an up and a down file of the
   * requested type, each parsing back to the version and the name it
   * was given; any other type is refused.
   */
  lemma MigrationFilesRoundTrip(version: nat, name: string, migrationType: string)
    ensures var r := MigrationFiles(version, name, migrationType);
      && (r.Failure? <==> migrationType != "sql" && migrationType != "go")
      && (r.Failure? ==> r.error == UnsupportedMigrationType)
      && (r.Success? ==>
            && |r.value| == 2
            && ParseFileName(r.value[0]) == Success((version, name))
            && ParseFileName(r.value[1]) == Success((version, name))
            && ClassifyName(r.value[0]) == (if '\n' in name then None else if migrationType == "sql" then Some(UpSql) else Some(UpGo))
            && ClassifyName(r.value[1]) == (if '\n' in name then None else if migrationType == "sql" then Some(DownSql) else Some(DownGo)))
  {
    if migrationType == "sql" {
      CreatedFile(version, name, UpSql);
      CreatedFile(version, name, DownSql);
    } else if migrationType == "go" {
      CreatedFile(version, name, UpGo);
      CreatedFile(version, name, DownGo);
    }
  }

  lemma CreatedFile(v: nat, name: string, k: Kind)
    ensures ParseFileName(FileName(v, name, k)) == Success((v, name))
    ensures ClassifyName(FileName(v, name, k)) == (if '\n' in name then None else Some(k))
  {
    ParseFileNameRoundTrip(v, name, k);
    ClassifyRoundTrip(v, name, k);
  }

  /** In an empty directory the first `sql` migration gets version 1. */
  lemma CreateInEmptyDirectory()
    ensures MigrationFiles(LastVersion([]) + 1, "create_users", "sql") ==
            Success(["00001_create_users_up.sql", "00001_create_users_down.sql"])
  {
    FirstSqlFileName();
  }
}
