/** Files in a ustar archive on a disk: inufw/platform/pc/module/tar/base.c. */
module Tar {
  import opened Arith
  import opened Bits
  import opened Strings

  const SECTOR: nat := 512
  const SIZE_FIELD: nat := 124
  const SIZE_LENGTH: nat := 12

  type Sector = seq<char>

  // ----- the size field

  /** What a character adds in its place, a digit or not. */
  function Digit(c: char): int {
    SignedChar(c) - '0' as int
  }

  function Pow8(n: nat): nat {
    if n == 0 then 1 else 8 * Pow8(n - 1)
  }

  /** The number a text stands for in base eight. */
  function Octal(s: string): int {
    if s == [] then 0 else Digit(s[0]) * Pow8(|s| - 1) + Octal(s[1..])
  }

  lemma ModStep(a: int, b: int, d: int, m: int)
    requires m > 0
    ensures (a % m + d * (b % m)) % m == (a + d * b) % m
  {
    var qa, ra := DivMod(a, m);
    var qb, rb := DivMod(b, m);
    var q, r := DivMod(ra + d * rb, m);
    assert a + d * b == (qa + d * qb + q) * m + r;
    DivUnique(a + d * b, m, qa + d * qb + q, r);
  }

  lemma EightTimes(x: int)
    ensures x % WORD32 * 8 % WORD32 == x * 8 % WORD32
  {
    ModStep(0, x, 8, WORD32);
    ModSmall(0, WORD32);
  }

  lemma OctalStep(digits: string, j: nat)
    requires 0 < j <= |digits|
    ensures Octal(digits[j - 1..]) == Octal(digits[j..]) + Digit(digits[j - 1]) * Pow8(|digits| - j)
  {
    assert digits[j - 1..][1..] == digits[j..];
  }

  /** One digit in 32-bit arithmetic. */
  lemma SizeStep(digits: string, j: nat, size: U32, count: U32)
    requires 0 < j <= |digits|
    requires size == Octal(digits[j..]) % WORD32 && count == Pow8(|digits| - j) % WORD32
    ensures (size + Digit(digits[j - 1]) * count) % WORD32 == Octal(digits[j - 1..]) % WORD32
    ensures count * 8 % WORD32 == Pow8(|digits| - j + 1) % WORD32
  {
    hide Octal;
    OctalStep(digits, j);
    var p := Pow8(|digits| - j);
    assert Pow8(|digits| - j + 1) == p * 8;
    hide Pow8;
    ModStep(Octal(digits[j..]), p, Digit(digits[j - 1]), WORD32);
    EightTimes(p);
  }

  lemma OctalStart(digits: string)
    requires |digits| == 11
    ensures Octal(digits[11..]) % WORD32 == 0 && Pow8(0) % WORD32 == 1
  {
  }

  /** getTarSize sums eleven digits from the right in 32-bit arithmetic. */
  method GetTarSize(field: string) returns (size: U32)
    requires |field| == SIZE_LENGTH
    ensures size == Octal(field[..11]) % WORD32
  {
    hide Octal, Pow8, Digit;
    ghost var digits := field[..11];
    OctalStart(digits);
    size := 0;
    var count: U32 := 1;
    var j := SIZE_LENGTH - 1;
    while j > 0
      invariant 0 <= j <= 11
      invariant size == Octal(digits[j..]) % WORD32 && count == Pow8(11 - j) % WORD32
    {
      SizeStep(digits, j, size, count);
      size := (size + Digit(field[j - 1]) * count) % WORD32;
      count := count * 8 % WORD32;
      j := j - 1;
    }
    assert digits[0..] == digits;
  }

  /** A size written as k octal digits. */
  function Encode(n: nat, k: nat): (s: string)
    ensures |s| == k && forall i :: 0 <= i < k ==> '0' <= s[i] <= '7'
  {
    if k == 0 then [] else Encode(n / 8, k - 1) + ['0' + (n % 8) as char]
  }

  lemma {:induction false} OctalAppend(s: string, c: char)
    ensures Octal(s + [c]) == 8 * Octal(s) + Digit(c)
  {
    if s == [] {
      assert s + [c] == [c];
      assert Octal([c]) == Digit(c) * Pow8(0) + Octal([]);
    } else {
      assert (s + [c])[1..] == s[1..] + [c];
      OctalAppend(s[1..], c);
      assert Pow8(|s|) == 8 * Pow8(|s| - 1);
      assert Digit(s[0]) * (8 * Pow8(|s| - 1)) == 8 * (Digit(s[0]) * Pow8(|s| - 1));
    }
  }

  lemma DigitBack(d: nat)
    requires d < 8
    ensures Octal("") == 0 && Digit('0' + d as char) == d
  {
  }

  lemma {:induction false} EncodeDecodes(n: nat, k: nat)
    requires n < Pow8(k)
    ensures Octal(Encode(n, k)) == n
  {
    hide Octal, Digit;
    DigitBack(n % 8);
    if k > 0 {
      EncodeDecodes(n / 8, k - 1);
      OctalAppend(Encode(n / 8, k - 1), '0' + (n % 8) as char);
    }
  }

  lemma Eleven()
    ensures Pow8(11) == 8589934592
  {
  }

  /** Of the sizes the field can hold, exactly those below 4 GiB are read back. */
  lemma SizeReadsBack(n: nat)
    requires n < Pow8(11)
    ensures Octal(Encode(n, 11)) % WORD32 == n <==> n < WORD32
  {
    hide Octal, Encode, Pow8;
    EncodeDecodes(n, 11);
    if n < WORD32 {
      ModSmall(n, WORD32);
    } else {
      var q, r := DivMod(n, WORD32);
    }
  }

  // ----- archives

  /** An entry's name and its size in bytes, as the code reads them. */
  datatype Entry = Entry(name: string, size: U32)

  /** Sectors of a body. */
  function Body(size: nat): nat {
    size / SECTOR + (if size % SECTOR != 0 then 1 else 0)
  }

  /** The least number of sectors that hold the body. */
  lemma BodyHolds(size: nat)
    ensures size <= 512 * Body(size) < size + 512
  {
  }

  predicate IsHeader(sector: Sector, e: Entry) {
    && |sector| == SECTOR
    && '\0' in sector && CStr(sector) == e.name
    && Octal(sector[SIZE_FIELD..SIZE_FIELD + 11]) % WORD32 == e.size
  }

  /** A header with a short name: the name padded with zeros, the mode and owner
      fields, the size in octal, and the rest. */
  function MakeHeader(name: string, owner: string, size: nat, rest: string): (sector: Sector)
    requires |name| < 100 && |owner| == 24 && |rest| == 376
    ensures |sector| == SECTOR
  {
    name + seq(100 - |name|, i => '\0') + owner + (Encode(size, 11) + ['\0']) + rest
  }

  /** The code reads back the name the header was made with, and the size in 32 bits. */
  lemma HeaderReadsBack(name: string, owner: string, size: nat, rest: string)
    requires |name| < 100 && '\0' !in name && |owner| == 24 && |rest| == 376 && size < Pow8(11)
    ensures IsHeader(MakeHeader(name, owner, size, rest), Entry(name, size % WORD32))
  {
    hide Octal, Encode, CStr;
    var sector := MakeHeader(name, owner, size, rest);
    assert sector[..|name|] == name && sector[|name|] == '\0';
    CStrOf(sector, name);
    assert sector[SIZE_FIELD..SIZE_FIELD + 11] == Encode(size, 11);
    EncodeDecodes(size, 11);
  }

  /** From sector `at` on, the disk holds these entries one behind the other, each a
      header and its padded body. Whatever follows them is arbitrary. */
  ghost predicate ArchiveAt(disk: seq<Sector>, entries: seq<Entry>, at: nat) {
    entries == [] ||
    (at + 1 + Body(entries[0].size) <= |disk| && IsHeader(disk[at], entries[0])
     && ArchiveAt(disk, entries[1..], at + 1 + Body(entries[0].size)))
  }

  /** Sectors before entry k. */
  function Position(entries: seq<Entry>, k: nat): nat
    requires k <= |entries|
  {
    if k == 0 then 0 else 1 + Body(entries[0].size) + Position(entries[1..], k - 1)
  }

  /** strstr finds the name searched for. */
  ghost predicate Matches(e: Entry, name: string) {
    e.name != [] && Contains(e.name, name)
  }

  ghost predicate IsFirstMatch(entries: seq<Entry>, name: string, k: nat) {
    k < |entries| && Matches(entries[k], name) && forall i :: 0 <= i < k ==> !Matches(entries[i], name)
  }

  ghost predicate HasMatch(entries: seq<Entry>, name: string) {
    exists k: nat :: k < |entries| && Matches(entries[k], name)
  }

  lemma MatchBehind(entries: seq<Entry>, name: string)
    requires HasMatch(entries, name)
    ensures entries != [] && (!Matches(entries[0], name) ==> HasMatch(entries[1..], name))
  {
    hide Matches;
    var k: nat :| k < |entries| && Matches(entries[k], name);
    assert k > 0 ==> entries[1..][k - 1] == entries[k];
  }

  /** The first entry whose name contains the name searched for. */
  ghost function FirstMatch(entries: seq<Entry>, name: string): (k: nat)
    requires HasMatch(entries, name)
    ensures IsFirstMatch(entries, name, k)
  {
    MatchBehind(entries, name);
    if Matches(entries[0], name) then 0 else 1 + FirstMatch(entries[1..], name)
  }

  lemma FirstMatchUnique(entries: seq<Entry>, name: string, k: nat)
    requires IsFirstMatch(entries, name, k)
    ensures HasMatch(entries, name) && k == FirstMatch(entries, name)
  {
    hide Matches, FirstMatch;
  }

  lemma {:induction false} EntryAt(disk: seq<Sector>, entries: seq<Entry>, at: nat, k: nat)
    requires ArchiveAt(disk, entries, at) && k < |entries|
    ensures at + Position(entries, k) + 1 + Body(entries[k].size) <= |disk|
    ensures IsHeader(disk[at + Position(entries, k)], entries[k])
    ensures Position(entries, k + 1) == Position(entries, k) + 1 + Body(entries[k].size)
  {
    hide IsHeader, Body;
    if k > 0 {
      EntryAt(disk, entries[1..], at + 1 + Body(entries[0].size), k - 1);
    }
  }

  /** Reading one header: does its name match, and how long is its body? */
  method ReadHeader(buffer: Sector, name: seq<char>, ghost e: Entry) returns (found: bool, fileSize: U32)
    requires IsHeader(buffer, e) && '\0' in name
    ensures found <==> Matches(e, CStr(name))
    ensures fileSize == e.size
  {
    hide CStr, Octal;
    var entry := StrStr(buffer, name);
    found := entry.Some?;
    EmptyOccurs(e.name);
    fileSize := GetTarSize(buffer[SIZE_FIELD..SIZE_FIELD + SIZE_LENGTH]);
    assert buffer[SIZE_FIELD..SIZE_FIELD + SIZE_LENGTH][..11] == buffer[SIZE_FIELD..SIZE_FIELD + 11];
    if entry.Some? && CStr(name) != [] {
      assert OccursAt(e.name, CStr(name), entry.value);
    }
  }

  lemma EmptyOccurs(s: string)
    ensures Contains(s, [])
  {
    assert OccursAt(s, [], 0);
  }

  /** The step from one header to the next. */
  function NextHeader(sector: nat, fileSize: U32): nat {
    sector + (fileSize / SECTOR + 1) + (if fileSize % SECTOR != 0 then 1 else 0)
  }

  /** The loop both searches share, from a first sector: the header of the first
      matching entry. It ends because some entry matches. */
  method Search(disk: seq<Sector>, name: seq<char>, first: nat, ghost entries: seq<Entry>)
      returns (sector: nat, fileSize: U32)
    requires ArchiveAt(disk, entries, first) && '\0' in name && HasMatch(entries, CStr(name))
    ensures sector == first + Position(entries, FirstMatch(entries, CStr(name)))
    ensures fileSize == entries[FirstMatch(entries, CStr(name))].size
  {
    hide ArchiveAt, IsHeader, Matches, CStr, Position, Body, FirstMatch;
    sector := first;
    ghost var k: nat := 0;
    ghost var m: nat :| m < |entries| && Matches(entries[m], CStr(name));
    PositionStart(entries);
    while true
      invariant k <= m && sector == first + Position(entries, k)
      invariant forall i :: 0 <= i < k ==> !Matches(entries[i], CStr(name))
      decreases m - k
    {
      EntryAt(disk, entries, first, k);
      var buffer := disk[sector];
      var found;
      found, fileSize := ReadHeader(buffer, name, entries[k]);
      if found {
        FirstMatchUnique(entries, CStr(name), k);
        return;
      }
      NextHeaderIs(sector, fileSize);
      sector := NextHeader(sector, fileSize);
      k := k + 1;
    }
  }

  lemma PositionStart(entries: seq<Entry>)
    ensures Position(entries, 0) == 0
  {
  }

  lemma NextHeaderIs(sector: nat, fileSize: U32)
    ensures NextHeader(sector, fileSize) == sector + 1 + Body(fileSize)
  {
  }

  /** TarLocateFileSector starts at sector one and returns the body's first sector. */
  method LocateFileSector(disk: seq<Sector>, name: seq<char>, ghost entries: seq<Entry>) returns (sector: nat)
    requires ArchiveAt(disk, entries, 1) && '\0' in name && HasMatch(entries, CStr(name))
    ensures sector == 1 + Position(entries, FirstMatch(entries, CStr(name))) + 1
  {
    hide ArchiveAt, IsFirstMatch, HasMatch, Position, FirstMatch;
    var size;
    sector, size := Search(disk, name, 1, entries);
    sector := sector + 1;
  }

  /** TarReadFileLength starts at sector zero and returns the padded length. */
  method ReadFileLength(disk: seq<Sector>, name: seq<char>, ghost entries: seq<Entry>) returns (length: nat)
    requires ArchiveAt(disk, entries, 0) && '\0' in name && HasMatch(entries, CStr(name))
    ensures length == Body(entries[FirstMatch(entries, CStr(name))].size) * SECTOR
    ensures length % 512 == 0
    ensures var size := entries[FirstMatch(entries, CStr(name))].size; size <= length < size + 512
  {
    hide ArchiveAt, HasMatch, Position, FirstMatch;
    var sector, fileSize;
    sector, fileSize := Search(disk, name, 0, entries);
    var windCount := fileSize / SECTOR;
    if fileSize % SECTOR != 0 {
      windCount := windCount + 1;
    }
    length := windCount * SECTOR;
  }

  function Concat(sectors: seq<Sector>): seq<char> {
    if sectors == [] then [] else Concat(sectors[..|sectors| - 1]) + sectors[|sectors| - 1]
  }

  /** AtaRead: consecutive sectors, one behind the other in the buffer. */
  method AtaRead(disk: seq<Sector>, sectorCount: nat, lba: nat, buffer: array<char>)
    requires lba + sectorCount <= |disk| && sectorCount * SECTOR <= buffer.Length
    requires forall i :: lba <= i < lba + sectorCount ==> |disk[i]| == SECTOR
    modifies buffer
    ensures buffer[..sectorCount * SECTOR] == Concat(disk[lba..lba + sectorCount])
    ensures forall j :: sectorCount * SECTOR <= j < buffer.Length ==> buffer[j] == old(buffer[j])
  {
    assert disk[lba..lba] == [];
    for i := 0 to sectorCount
      invariant buffer[..i * SECTOR] == Concat(disk[lba..lba + i])
      invariant forall j :: i * SECTOR <= j < buffer.Length ==> buffer[j] == old(buffer[j])
    {
      ghost var before := buffer[..i * SECTOR];
      CopySector(disk[lba + i], buffer, i * SECTOR);
      assert disk[lba..lba + i + 1][..i] == disk[lba..lba + i];
      assert buffer[..i * SECTOR] == before;
      assert buffer[..(i + 1) * SECTOR] == before + disk[lba + i];
    }
  }

  method CopySector(sector: Sector, buffer: array<char>, offset: nat)
    requires |sector| == SECTOR && offset + SECTOR <= buffer.Length
    modifies buffer
    ensures buffer[offset..offset + SECTOR] == sector
    ensures forall j :: 0 <= j < buffer.Length && !(offset <= j < offset + SECTOR) ==> buffer[j] == old(buffer[j])
  {
    for j := 0 to SECTOR
      invariant buffer[offset..offset + j] == sector[..j]
      invariant forall i :: 0 <= i < buffer.Length && !(offset <= i < offset + j) ==> buffer[i] == old(buffer[i])
    {
      buffer[offset + j] := sector[j];
    }
  }

  /** The search that skips the first entry finds the same entry exactly when the
      first one does not match. */
  lemma SearchesAgree(entries: seq<Entry>, name: string)
    requires entries != [] && HasMatch(entries[1..], name)
    ensures HasMatch(entries, name)
    ensures FirstMatch(entries, name) == 1 + FirstMatch(entries[1..], name) <==> !Matches(entries[0], name)
  {
    hide Matches;
    var k: nat :| k < |entries[1..]| && Matches(entries[1..][k], name);
    assert entries[k + 1] == entries[1..][k];
  }

  /** TarReadFile, on an archive whose first entry has no body: exactly the sectors of
      the first matching entry's body, when that is not the first entry. */
  method ReadFile(disk: seq<Sector>, name: seq<char>, buffer: array<char>, ghost entries: seq<Entry>)
    requires ArchiveAt(disk, entries, 0) && '\0' in name && forall i :: 0 <= i < |disk| ==> |disk[i]| == SECTOR
    requires entries != [] && entries[0].size == 0 && !Matches(entries[0], CStr(name)) && HasMatch(entries, CStr(name))
    requires Body(entries[FirstMatch(entries, CStr(name))].size) * SECTOR <= buffer.Length
    modifies buffer
    ensures var k := FirstMatch(entries, CStr(name));
            var from, n := Position(entries, k) + 1, Body(entries[k].size);
            && from + n <= |disk| && n * SECTOR <= buffer.Length
            && buffer[..n * SECTOR] == Concat(disk[from..from + n])
            && forall j :: n * SECTOR <= j < buffer.Length ==> buffer[j] == old(buffer[j])
  {
    hide IsHeader, Matches, CStr, ArchiveAt, HasMatch, Position, Concat, Body, FirstMatch;
    SkipFirst(disk, entries, CStr(name));
    SearchesAgree(entries, CStr(name));
    EntryAt(disk, entries, 0, FirstMatch(entries, CStr(name)));
    var sectorIndex := LocateFileSector(disk, name, entries[1..]);
    var length := ReadFileLength(disk, name, entries);
    var sectorLength := length / SECTOR;
    AtaRead(disk, sectorLength, sectorIndex, buffer);
  }

  lemma SkipFirst(disk: seq<Sector>, entries: seq<Entry>, name: string)
    requires ArchiveAt(disk, entries, 0) && entries != [] && entries[0].size == 0
    requires !Matches(entries[0], name) && HasMatch(entries, name)
    ensures ArchiveAt(disk, entries[1..], 1) && HasMatch(entries[1..], name)
    ensures forall k: nat :: 0 < k <= |entries| ==> Position(entries, k) == 1 + Position(entries[1..], k - 1)
  {
    hide Matches, IsHeader;
    var k: nat :| k < |entries| && Matches(entries[k], name);
    assert entries[1..][k - 1] == entries[k];
  }
}
