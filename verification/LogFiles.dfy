/** The directory a rotating log lives in: names, contents, ages, and pruning. */
module LogFiles {
  import opened Sorting

  type Bytes = seq<bv8>

  datatype File = File(contents: Bytes, mtime: int)

  type Directory = map<string, File>

  // ----- which names count as backups -----

  const NPOS: nat := 0xFFFF_FFFF_FFFF_FFFF

  /** `std::string::rfind`: the last place where `t` occurs at or before index `i`, or NPOS. */
  function RFindFrom(s: string, t: string, i: nat): nat
    requires i + |t| <= |s|
  {
    if s[i..i + |t|] == t then i else if i == 0 then NPOS else RFindFrom(s, t, i - 1)
  }

  function RFind(s: string, t: string): nat
  {
    if |s| < |t| then NPOS else RFindFrom(s, t, |s| - |t|)
  }

  /** The filter of the directory scan; the length difference is taken in `size_t`. */
  predicate IsBackup(name: string, process: string)
  {
    process + "_" <= name && RFind(name, ".log") == (|name| - 4) % (NPOS + 1)
  }

  // ----- the formatted second in a backup's name -----

  function TwoDigits(s: string, i: nat): int
    requires i + 1 < |s|
  {
    10 * (s[i] as int - '0' as int) + (s[i + 1] as int - '0' as int)
  }

  function DaysIn(year: int, month: int): int
  {
    if month == 2 then
      if year % 4 == 0 && (year % 100 != 0 || year % 400 == 0) then 29 else 28
    else if month == 4 || month == 6 || month == 9 || month == 11 then 30
    else 31
  }

  predicate IsDate(year: int, month: int, day: int)
  {
    1000 <= year <= 9999 && 1 <= month <= 12 && 1 <= day <= DaysIn(year, month)
  }

  predicate StampShape(s: string)
  {
    |s| == 15 && s[8] == '_' && forall i :: 0 <= i < 15 && i != 8 ==> '0' <= s[i] <= '9'
  }

  /** What `%Y%m%d_%H%M%S` makes of a local time in a year of four digits. */
  predicate IsStamp(s: string)
  {
    && StampShape(s)
    && IsDate(100 * TwoDigits(s, 0) + TwoDigits(s, 2), TwoDigits(s, 4), TwoDigits(s, 6))
    && TwoDigits(s, 9) < 24 && TwoDigits(s, 11) < 60 && TwoDigits(s, 13) < 60
  }

  function Tens(n: int): char
    requires 0 <= n < 100
  {
    '0' + (n / 10) as char
  }

  function Ones(n: int): char
    requires 0 <= n < 100
  {
    '0' + (n % 10) as char
  }

  /** A moment of the calendar, to the second. */
  datatype Moment = Moment(year: int, month: int, day: int, hour: int, minute: int, second: int)

  function MonthLengths(leap: bool): (days: seq<int>)
    ensures |days| == 12
  {
    [31, if leap then 29 else 28, 31, 30, 31, 30, 31, 31, 30, 31, 30, 31]
  }

  predicate IsLeap(year: int)
  {
    year % 400 == 0 || (year % 4 == 0 && year % 100 != 0)
  }

  predicate IsMoment(m: Moment)
  {
    && 1000 <= m.year < 10000 && 1 <= m.month <= 12
    && 1 <= m.day <= MonthLengths(IsLeap(m.year))[m.month - 1]
    && 0 <= m.hour < 24 && 0 <= m.minute < 60 && 0 <= m.second < 60
  }

  function Format(m: Moment): string
    requires IsMoment(m)
  {
    [Tens(m.year / 100), Ones(m.year / 100), Tens(m.year % 100), Ones(m.year % 100),
     Tens(m.month), Ones(m.month), Tens(m.day), Ones(m.day), '_',
     Tens(m.hour), Ones(m.hour), Tens(m.minute), Ones(m.minute), Tens(m.second), Ones(m.second)]
  }

  lemma TwoDigitsRead(s: string, i: nat, n: int)
    requires i + 1 < |s| && '0' <= s[i] <= '9' && '0' <= s[i + 1] <= '9' && 0 <= n < 100
    ensures TwoDigits(s, i) == n <==> s[i] == Tens(n) && s[i + 1] == Ones(n)
  {
    var d, e := s[i] as int - '0' as int, s[i + 1] as int - '0' as int;
    assert (10 * d + e) / 10 == d && (10 * d + e) % 10 == e;
  }

  /** The text of a moment reads back as its fields. */
  function Read(s: string): Moment
    requires |s| == 15
  {
    Moment(100 * TwoDigits(s, 0) + TwoDigits(s, 2), TwoDigits(s, 4), TwoDigits(s, 6),
           TwoDigits(s, 9), TwoDigits(s, 11), TwoDigits(s, 13))
  }

  lemma FormatRead(s: string, m: Moment)
    requires IsMoment(m) && StampShape(s)
    ensures s == Format(m) <==> Read(s) == m
  {
    TwoDigitsRead(s, 0, m.year / 100);
    TwoDigitsRead(s, 2, m.year % 100);
    TwoDigitsRead(s, 4, m.month);
    TwoDigitsRead(s, 6, m.day);
    TwoDigitsRead(s, 9, m.hour);
    TwoDigitsRead(s, 11, m.minute);
    TwoDigitsRead(s, 13, m.second);
    YearRead(s, m.year);
  }

  lemma YearRead(s: string, year: int)
    requires StampShape(s) && 0 <= year < 10000
    ensures 100 * TwoDigits(s, 0) + TwoDigits(s, 2) == year
            <==> TwoDigits(s, 0) == year / 100 && TwoDigits(s, 2) == year % 100
  {
  }

  lemma ReadIsMoment(s: string)
    requires StampShape(s)
    ensures IsStamp(s) <==> IsMoment(Read(s))
  {
    var m := Read(s);
    assert 0 <= m.year < 10000 && 0 <= m.hour && 0 <= m.minute && 0 <= m.second;
    if 1 <= m.month <= 12 {
      DaysAgree(m.year, m.month);
    }
  }

  lemma DaysAgree(year: int, month: int)
    requires 1 <= month <= 12
    ensures DaysIn(year, month) == MonthLengths(IsLeap(year))[month - 1]
  {
  }

  lemma FormatShape(m: Moment)
    requires IsMoment(m)
    ensures StampShape(Format(m))
  {
  }

  /** The stamps are exactly the formatted moments. */
  lemma StampsAreMoments(s: string)
    ensures IsStamp(s) <==> exists m :: IsMoment(m) && s == Format(m)
  {
    if IsStamp(s) {
      ReadIsMoment(s);
      FormatRead(s, Read(s));
    }
    if m :| IsMoment(m) && s == Format(m) {
      FormatShape(m);
      FormatRead(s, m);
      ReadIsMoment(s);
    }
  }

  type Stamp = s: string | IsStamp(s) witness "20240101_000000"

  function BackupName(process: string, stamp: string): string
  {
    process + "_" + stamp + ".log"
  }

  lemma {:induction false} RFindBound(s: string, t: string, i: nat)
    requires i + |t| <= |s|
    ensures RFindFrom(s, t, i) == NPOS || RFindFrom(s, t, i) <= i
  {
    if i > 0 {
      RFindBound(s, t, i - 1);
    }
  }

  /** The filter accepts the names with the prefix that end in ".log" -- and, because
      3 - 4 wraps to the "not found" value, every three-letter name with the prefix. */
  lemma BackupNames(name: string, process: string)
    requires |name| < NPOS
    ensures IsBackup(name, process)
            <==> process + "_" <= name && (|name| == 3 || (|name| >= 4 && name[|name| - 4..] == ".log"))
  {
    if |name| >= 4 {
      var i := |name| - 4;
      assert name[i..i + 4] == name[i..];
      if name[i..] != ".log" && i > 0 {
        RFindBound(name, ".log", i - 1);
      }
    }
  }

  lemma RotatedNameIsBackup(process: string, stamp: string)
    requires |process| + |stamp| + 5 < NPOS
    ensures IsBackup(BackupName(process, stamp), process)
  {
    var name := BackupName(process, stamp);
    assert name == (process + "_") + (stamp + ".log");
    assert name[|name| - 4..] == ".log";
    BackupNames(name, process);
  }

  /** The name is one that a rotation can produce. */
  predicate IsRotatedName(name: string, process: string)
  {
    && |name| == |process| + 20
    && name[..|process| + 1] == process + "_"
    && IsStamp(name[|process| + 1..|process| + 16])
    && name[|process| + 16..] == ".log"
  }

  lemma RotatedNames(name: string, process: string)
    ensures IsRotatedName(name, process) <==> exists stamp: Stamp :: BackupName(process, stamp) == name
  {
    var n := |process| + 1;
    if IsRotatedName(name, process) {
      var stamp := name[n..n + 15];
      assert BackupName(process, stamp) == name;
    }
    if stamp: Stamp :| BackupName(process, stamp) == name {
      assert name[n..n + 15] == stamp && name[..n] == process + "_" && name[n + 15..] == ".log";
    }
  }

  lemma BackupNameInjective(process: string, stamp1: string, stamp2: string)
    requires BackupName(process, stamp1) == BackupName(process, stamp2)
    ensures stamp1 == stamp2
  {
    var n := |process| + 1;
    assert stamp1 == BackupName(process, stamp1)[n..n + |stamp1|];
    assert stamp2 == BackupName(process, stamp2)[n..n + |stamp2|];
  }

  // ----- pruning -----

  ghost predicate Distinct<T>(s: seq<T>)
  {
    forall i, j :: 0 <= i < j < |s| ==> s[i] != s[j]
  }

  function Backups(dir: Directory, process: string): set<string>
  {
    set name | name in dir && IsBackup(name, process)
  }

  function Age(dir: Directory): string -> int
  {
    (name: string) => if name in dir then dir[name].mtime else 0
  }

  ghost function Members<T>(s: seq<T>): set<T>
  {
    set x | x in s
  }

  /** All backups, oldest first; ties in age may stand in any order. */
  ghost predicate ListsByAge(listing: seq<string>, dir: Directory, process: string)
  {
    && Distinct(listing)
    && Members(listing) == Backups(dir, process)
    && SortedBy(listing, Age(dir))
  }

  /** How many names at the head of a listing exceed the quota. */
  function Excess(count: nat, maxFiles: nat): nat
  {
    if count > maxFiles then count - maxFiles else 0
  }

  /** What is left after the listing's excess head is deleted. */
  ghost function Without(dir: Directory, listing: seq<string>, excess: nat): Directory
    requires excess <= |listing|
  {
    dir - Members(listing[..excess])
  }

  lemma {:induction false} DistinctCount<T>(s: seq<T>)
    requires Distinct(s)
    ensures |Members(s)| == |s|
  {
    if s != [] {
      var front := s[..|s| - 1];
      DistinctCount(front);
      assert s == front + [s[|s| - 1]] && s[|s| - 1] !in front;
      assert Members(s) == Members(front) + {s[|s| - 1]};
    }
  }

  /** Pruning leaves the quota, or all there were; nothing deleted is newer than anything kept. */
  lemma PruningKeepsNewest(dir: Directory, process: string, listing: seq<string>, maxFiles: nat)
    requires ListsByAge(listing, dir, process)
    ensures var after := Without(dir, listing, Excess(|listing|, maxFiles));
      && |Backups(after, process)| == (if |listing| < maxFiles then |listing| else maxFiles)
      && (forall name :: name in dir && !IsBackup(name, process) ==> name in after)
      && (forall name :: name in after ==> name in dir && after[name] == dir[name])
      && (forall gone, kept :: gone in dir && gone !in after && kept in Backups(after, process) ==>
            dir[gone].mtime <= dir[kept].mtime)
  {
    var excess := Excess(|listing|, maxFiles);
    var after := Without(dir, listing, excess);
    forall name ensures name in Backups(after, process) <==> name in listing[excess..] {
      KeptAreTail(dir, process, listing, excess, name);
    }
    assert Backups(after, process) == Members(listing[excess..]);
    DistinctCount(listing[excess..]);
    forall gone, kept | gone in dir && gone !in after && kept in Backups(after, process)
      ensures dir[gone].mtime <= dir[kept].mtime
    {
      assert gone in listing[..excess] && kept in listing[excess..];
      var i :| 0 <= i < excess && listing[i] == gone;
      var j :| excess <= j < |listing| && listing[j] == kept;
      assert gone in Members(listing) && kept in Members(listing);
      assert Age(dir)(listing[i]) <= Age(dir)(listing[j]);
    }
    forall name | name in dir && !IsBackup(name, process) ensures name in after {
      assert name !in Members(listing);
    }
  }

  lemma KeptAreTail(dir: Directory, process: string, listing: seq<string>, excess: nat, name: string)
    requires Distinct(listing) && Members(listing) == Backups(dir, process) && excess <= |listing|
    ensures name in Backups(Without(dir, listing, excess), process) <==> name in listing[excess..]
  {
    assert name in Backups(dir, process) <==> name in listing;
    if name in listing[excess..] {
      var j :| excess <= j < |listing| && listing[j] == name;
      assert name !in listing[..excess];
    }
    if name in listing {
      assert name in listing[..excess] || name in listing[excess..];
    }
  }

  /** When no two backups have the same age there is only one listing. */
  lemma {:induction false} ListingUnique(a: seq<string>, b: seq<string>, key: string -> int)
    requires Distinct(a) && Distinct(b) && Members(a) == Members(b)
    requires SortedBy(a, key)
    requires forall i, j :: 0 <= i < j < |b| ==> key(b[i]) < key(b[j])
    ensures a == b
  {
    DistinctCount(a);
    DistinctCount(b);
    if a != [] {
      var n := |a| - 1;
      assert a[n] in Members(b) && b[n] in Members(a);
      var k :| 0 <= k <= n && b[k] == a[n];
      var m :| 0 <= m <= n && a[m] == b[n];
      assert k == n;
      assert Members(a[..n]) == Members(a) - {a[n]};
      assert Members(b[..n]) == Members(b) - {b[n]};
      ListingUnique(a[..n], b[..n], key);
    }
  }

  // ----- the scan, the sort and the deletion loop -----

  method ListBackups(dir: Directory, process: string) returns (names: seq<string>)
    ensures Distinct(names) && Members(names) == Backups(dir, process)
  {
    names := [];
    var rest := Backups(dir, process);
    while rest != {}
      invariant Distinct(names) && Members(names) + rest == Backups(dir, process)
      invariant Members(names) !! rest
      decreases rest
    {
      var name :| name in rest;
      assert Members(names + [name]) == Members(names) + {name};
      assert name !in Members(names);
      names, rest := names + [name], rest - {name};
    }
  }

  method ListOldestFirst(dir: Directory, process: string) returns (listing: seq<string>)
    ensures ListsByAge(listing, dir, process)
  {
    var names := ListBackups(dir, process);
    var cells := new string[|names|](i requires 0 <= i < |names| => names[i]);
    assert cells[..] == names;
    Sort(cells, Age(dir));
    listing := cells[..];
    SameListing(names, listing);
  }

  lemma SameListing<T>(s: seq<T>, t: seq<T>)
    requires multiset(s) == multiset(t) && Distinct(s)
    ensures Distinct(t) && Members(s) == Members(t)
  {
    forall x ensures x in s <==> x in t {
      assert x in s <==> x in multiset(s);
      assert x in t <==> x in multiset(t);
    }
    forall i, j | 0 <= i < j < |t| ensures t[i] != t[j] {
      if t[i] == t[j] {
        CountTwice(t, i, j);
        DistinctCountsOnce(s, t[i]);
      }
    }
  }

  lemma CountTwice<T>(t: seq<T>, i: nat, j: nat)
    requires i < j < |t| && t[i] == t[j]
    ensures multiset(t)[t[i]] >= 2
  {
    MultisetWithout(t, j);
    var rest := t[..j] + t[j + 1..];
    assert rest[i] == t[i] && rest[i] in multiset(rest);
  }

  lemma {:induction false} DistinctCountsOnce<T>(s: seq<T>, x: T)
    requires Distinct(s)
    ensures multiset(s)[x] <= 1
  {
    if s != [] {
      var n := |s| - 1;
      MultisetWithout(s, n);
      assert s[..n] + s[n + 1..] == s[..n];
      DistinctCountsOnce(s[..n], x);
      if s[n] == x {
        assert x !in s[..n];
        assert x !in multiset(s[..n]);
      }
    }
  }

  /** Deletes from the front of the age-ordered list until the quota is met. */
  method Prune(dir: Directory, process: string, maxFiles: nat)
    returns (after: Directory, ghost listing: seq<string>)
    ensures ListsByAge(listing, dir, process)
    ensures after == Without(dir, listing, Excess(|listing|, maxFiles))
  {
    var files := ListOldestFirst(dir, process);
    listing := files;
    after := dir;
    ghost var k := 0;
    while |files| > maxFiles
      invariant 0 <= k <= |listing| && files == listing[k..]
      invariant k <= Excess(|listing|, maxFiles)
      invariant after == Without(dir, listing, k)
    {
      assert Members(listing[..k + 1]) == Members(listing[..k]) + {listing[k]};
      after := after - {files[0]};
      files := files[1..];
      k := k + 1;
    }
  }
}
