/** Files written to a disk and read back: headers, each with its contents padded to
    sectors behind it (inufw/platform/pc/module/tar/base.c). */
module TarFiles {
  import opened Bits
  import opened Strings
  import opened Tar

  /** A file with the header fields the code does not read. */
  datatype File = File(name: string, contents: seq<char>, owner: string, rest: string)

  /** A short name, a size the code reads back, and fields of the right length. */
  predicate Fits(f: File) {
    && |f.name| < 100 && '\0' !in f.name && |f.contents| < WORD32 && |f.owner| == 24 && |f.rest| == 376
  }

  function Zeros(n: nat): (s: seq<char>)
    ensures |s| == n
  {
    seq(n, i => '\0')
  }

  /** Contents cut into sectors, the last one filled with zeros. */
  function Padded(contents: seq<char>): (sectors: seq<Sector>)
    ensures forall i :: 0 <= i < |sectors| ==> |sectors[i]| == 512
  {
    if contents == [] then []
    else if |contents| < 512 then [contents + Zeros(512 - |contents|)]
    else [contents[..512]] + Padded(contents[512..])
  }

  function Written(f: File): (sectors: seq<Sector>)
    requires Fits(f)
    ensures |sectors| > 0 && forall i :: 0 <= i < |sectors| ==> |sectors[i]| == 512
  {
    [MakeHeader(f.name, f.owner, |f.contents|, f.rest)] + Padded(f.contents)
  }

  function Disk(files: seq<File>): (sectors: seq<Sector>)
    requires forall f :: f in files ==> Fits(f)
    ensures forall i :: 0 <= i < |sectors| ==> |sectors[i]| == 512
  {
    if files == [] then [] else Written(files[0]) + Disk(files[1..])
  }

  function EntryOf(f: File): Entry
    requires Fits(f)
  {
    Entry(f.name, |f.contents|)
  }

  function Entries(files: seq<File>): (entries: seq<Entry>)
    requires forall f :: f in files ==> Fits(f)
    ensures |entries| == |files| && forall i :: 0 <= i < |files| ==> entries[i] == EntryOf(files[i])
  {
    if files == [] then [] else [EntryOf(files[0])] + Entries(files[1..])
  }

  lemma ConcatLast(sectors: seq<Sector>, last: Sector)
    ensures Concat(sectors + [last]) == Concat(sectors) + last && Concat([]) == []
  {
    assert (sectors + [last])[..|sectors|] == sectors;
  }

  lemma {:induction false} ConcatFirst(first: Sector, sectors: seq<Sector>)
    ensures Concat([first] + sectors) == first + Concat(sectors)
    decreases |sectors|
  {
    hide Concat;
    if sectors == [] {
      ConcatLast([], first);
      assert [first] + sectors == [] + [first];
    } else {
      var n := |sectors| - 1;
      ConcatFirst(first, sectors[..n]);
      ConcatLast(sectors[..n], sectors[n]);
      ConcatLast([first] + sectors[..n], sectors[n]);
      assert sectors[..n] + [sectors[n]] == sectors;
      assert [first] + sectors[..n] + [sectors[n]] == [first] + sectors;
    }
  }

  lemma {:induction false} PaddedIs(contents: seq<char>)
    ensures |Padded(contents)| == Body(|contents|) && |contents| <= 512 * Body(|contents|)
    ensures Concat(Padded(contents)) == contents + Zeros(512 * Body(|contents|) - |contents|)
  {
    BodyHolds(|contents|);
    if |contents| >= 512 {
      var rest := contents[512..];
      PaddedIs(rest);
      BodyHolds(|rest|);
      assert Body(|contents|) == 1 + Body(|rest|);
      ConcatFirst(contents[..512], Padded(rest));
      assert contents[..512] + (rest + Zeros(512 * Body(|rest|) - |rest|))
          == contents + Zeros(512 * Body(|contents|) - |contents|);
    } else if contents != [] {
      var sector := contents + Zeros(512 - |contents|);
      ConcatFirst(sector, []);
      assert [sector] + [] == [sector];
      assert Concat([sector]) == sector + Concat([]);
    }
  }

  /** The sizes of these files are read back. */
  lemma WrittenHeader(f: File)
    requires Fits(f)
    ensures IsHeader(Written(f)[0], EntryOf(f))
  {
    hide Pow8, IsHeader, MakeHeader;
    Eleven();
    HeaderReadsBack(f.name, f.owner, |f.contents|, f.rest);
  }

  /** From sector `at` on, the disk holds these files one behind the other. */
  ghost predicate WrittenAt(disk: seq<Sector>, files: seq<File>, at: nat)
    requires forall f :: f in files ==> Fits(f)
  {
    files == [] ||
    (at + |Written(files[0])| <= |disk| && disk[at..at + |Written(files[0])|] == Written(files[0])
     && WrittenAt(disk, files[1..], at + |Written(files[0])|))
  }

  lemma {:induction false} DiskWritten(before: seq<Sector>, files: seq<File>, after: seq<Sector>)
    requires forall f :: f in files ==> Fits(f)
    ensures WrittenAt(before + Disk(files) + after, files, |before|)
    decreases |files|
  {
    hide Written;
    if files != [] {
      var here, others := Written(files[0]), Disk(files[1..]);
      assert Disk(files) == here + others;
      hide Disk;
      DiskWritten(before + here, files[1..], after);
      SliceOf(before, here, others + after);
      assert before + here + others + after == before + (here + others) + after;
      assert before + here + (others + after) == before + (here + others) + after;
    }
  }

  lemma SliceOf(before: seq<Sector>, here: seq<Sector>, after: seq<Sector>)
    ensures (before + here + after)[|before|..|before| + |here|] == here
  {
  }

  /** The header and the body of the first file. */
  lemma FirstAt(disk: seq<Sector>, files: seq<File>, at: nat)
    requires files != [] && (forall f :: f in files ==> Fits(f)) && WrittenAt(disk, files, at)
    ensures var n := Body(|files[0].contents|);
            && at + 1 + n <= |disk| && IsHeader(disk[at], EntryOf(files[0]))
            && disk[at + 1..at + 1 + n] == Padded(files[0].contents)
            && WrittenAt(disk, files[1..], at + 1 + n)
  {
    hide IsHeader, Body, MakeHeader, Padded;
    var f, here := files[0], Written(files[0]);
    WrittenHeader(f);
    PaddedIs(f.contents);
    assert disk[at] == disk[at..at + |here|][0];
    assert disk[at + 1..at + |here|] == disk[at..at + |here|][1..];
  }

  /** Files written one behind the other are an archive, whatever else is on the disk. */
  lemma {:induction false} WrittenArchive(disk: seq<Sector>, files: seq<File>, at: nat)
    requires (forall f :: f in files ==> Fits(f)) && WrittenAt(disk, files, at)
    ensures ArchiveAt(disk, Entries(files), at)
    decreases |files|
  {
    hide IsHeader, Body, WrittenAt;
    if files != [] {
      FirstAt(disk, files, at);
      WrittenArchive(disk, files[1..], at + 1 + Body(|files[0].contents|));
      assert Entries(files)[1..] == Entries(files[1..]);
    }
  }

  /** Behind the header of a file are its padded contents. */
  lemma {:induction false} ContentsAt(disk: seq<Sector>, files: seq<File>, at: nat, k: nat)
    requires k < |files| && (forall f :: f in files ==> Fits(f)) && WrittenAt(disk, files, at)
    ensures var from, n := at + Position(Entries(files), k) + 1, Body(|files[k].contents|);
            from + n <= |disk| && disk[from..from + n] == Padded(files[k].contents)
    decreases |files|
  {
    hide IsHeader, Body, Padded, WrittenAt, Position, Entries;
    FirstAt(disk, files, at);
    PositionOf(files, k);
    if k > 0 {
      ContentsAt(disk, files[1..], at + 1 + Body(|files[0].contents|), k - 1);
    }
  }

  lemma PositionOf(files: seq<File>, k: nat)
    requires k < |files| && forall f :: f in files ==> Fits(f)
    ensures Position(Entries(files), k)
      == if k == 0 then 0 else 1 + Body(|files[0].contents|) + Position(Entries(files[1..]), k - 1)
  {
    hide Body;
    assert Entries(files)[1..] == Entries(files[1..]);
  }

  ghost predicate Named(f: File, name: string) {
    f.name != [] && Contains(f.name, name)
  }

  lemma NamedMatches(files: seq<File>, name: string)
    requires forall f :: f in files ==> Fits(f)
    ensures forall i :: 0 <= i < |files| ==> (Matches(Entries(files)[i], name) <==> Named(files[i], name))
  {
    hide Contains;
  }

  lemma SomeMatch(files: seq<File>, name: string)
    requires forall f :: f in files ==> Fits(f)
    requires exists i :: 0 <= i < |files| && Named(files[i], name)
    ensures HasMatch(Entries(files), name)
  {
    NamedMatches(files, name);
    hide Named, Matches;
    var i :| 0 <= i < |files| && Named(files[i], name);
    assert Matches(Entries(files)[i], name);
  }

  /** Whole sectors for so many bytes. */
  predicate RoomFor(size: nat, space: nat) {
    size <= space / 512 * 512
  }

  lemma RoomEnough(size: nat, space: nat)
    requires RoomFor(size, space)
    ensures size <= Body(size) * SECTOR <= space && Body(size) * SECTOR < size + 512
  {
    BodyHolds(size);
  }

  /** Files on a disk behind an empty one that does not match, some other one matching. */
  ghost predicate Searchable(files: seq<File>, name: string) {
    && (forall f :: f in files ==> Fits(f))
    && files != [] && files[0].contents == [] && !Named(files[0], name)
    && exists i :: 0 <= i < |files| && Named(files[i], name)
  }

  ghost predicate IsFirstNamed(files: seq<File>, name: string, k: nat) {
    k < |files| && Named(files[k], name) && forall i :: 0 <= i < k ==> !Named(files[i], name)
  }

  /** What the search finds on such a disk. */
  lemma FirstNamed(files: seq<File>, after: seq<Sector>, name: string) returns (k: nat)
    requires Searchable(files, name)
    ensures ArchiveAt(Disk(files) + after, Entries(files), 0) && HasMatch(Entries(files), name)
    ensures Entries(files)[0].size == 0 && !Matches(Entries(files)[0], name)
    ensures k == FirstMatch(Entries(files), name) && IsFirstNamed(files, name, k)
    ensures Entries(files)[k].size == |files[k].contents|
    ensures var from, n := Position(Entries(files), k) + 1, Body(|files[k].contents|);
            from + n <= |Disk(files) + after| && (Disk(files) + after)[from..from + n] == Padded(files[k].contents)
  {
    hide ArchiveAt, WrittenAt, Position, Padded, Disk, FirstMatch, Body, Named, Matches;
    assert [] + Disk(files) + after == Disk(files) + after;
    DiskWritten([], files, after);
    WrittenArchive(Disk(files) + after, files, 0);
    NamedMatches(files, name);
    SomeMatch(files, name);
    k := FirstMatch(Entries(files), name);
    ContentsAt(Disk(files) + after, files, 0, k);
  }

  /** What TarReadFileLength and TarReadFile give back for a disk these files were written
      to: the length is that of the contents rounded up to sectors, and the buffer begins
      with the contents of the first matching file. */
  method ReadBack(files: seq<File>, after: seq<Sector>, name: seq<char>, buffer: array<char>)
      returns (length: nat, ghost k: nat)
    requires '\0' in name && Searchable(files, CStr(name)) && forall i :: 0 <= i < |after| ==> |after[i]| == 512
    requires forall i :: 0 <= i < |files| && Named(files[i], CStr(name)) ==>
               RoomFor(|files[i].contents|, buffer.Length)
    modifies buffer
    ensures IsFirstNamed(files, CStr(name), k)
    ensures length % 512 == 0 && |files[k].contents| <= length < |files[k].contents| + 512 && length <= buffer.Length
    ensures buffer[..|files[k].contents|] == files[k].contents
    ensures forall j :: |files[k].contents| <= j < length ==> buffer[j] == '\0'
    ensures forall j :: length <= j < buffer.Length ==> buffer[j] == old(buffer[j])
  {
    hide ArchiveAt, HasMatch, Position, Padded, Disk, FirstMatch, CStr, Body, Concat, Named, Matches, Fits, Zeros;
    var disk := Disk(files) + after;
    k := FirstNamed(files, after, CStr(name));
    ghost var contents := files[k].contents;
    PaddedIs(contents);
    RoomEnough(|contents|, buffer.Length);
    hide RoomFor;
    length := ReadFileLength(disk, name, Entries(files));
    ReadFile(disk, name, buffer, Entries(files));
    BufferIs(buffer[..], contents, length);
  }

  lemma BufferIs(buffer: seq<char>, contents: seq<char>, length: nat)
    requires |contents| <= length <= |buffer| && buffer[..length] == contents + Zeros(length - |contents|)
    ensures buffer[..|contents|] == contents
    ensures forall j :: |contents| <= j < length ==> buffer[j] == '\0'
  {
    assert buffer[..|contents|] == buffer[..length][..|contents|];
    forall j | |contents| <= j < length
      ensures buffer[j] == '\0'
    {
      assert buffer[j] == buffer[..length][j];
    }
  }
}
