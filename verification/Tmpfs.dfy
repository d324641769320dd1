/** The in-memory file system of src/fs/tmpfs.c: 32 slots that refine a map from names to
    contents.  Bytes are characters. */
module Tmpfs {
  import opened Common

  const MAX_FILES: nat := 32
  const NAME_LEN: nat := 64
  const DATA_SIZE: nat := 4096

  datatype File = File(name: string, size: nat, used: bool, data: seq<char>)

  predicate FileOk(f: File) { |f.data| == DATA_SIZE && f.size <= DATA_SIZE && |f.name| < NAME_LEN }

  predicate AllOk(files: seq<File>) { forall i | 0 <= i < |files| :: FileOk(files[i]) }

  /** The first used slot with a name, or |files|. */
  function Find(files: seq<File>, name: string): (i: nat)
    ensures i <= |files|
    ensures i < |files| ==> files[i].used && files[i].name == name
    ensures forall j | 0 <= j < i :: !(files[j].used && files[j].name == name)
  {
    if files == [] || (files[0].used && files[0].name == name) then 0 else 1 + Find(files[1..], name)
  }

  /** The contents stored under a name. */
  function Lookup(files: seq<File>, name: string): (r: Option<string>)
    requires AllOk(files)
  {
    var i := Find(files, name);
    if i == |files| then None else Some(files[i].data[..files[i].size])
  }

  function UsedCount(files: seq<File>): (r: nat) {
    if files == [] then 0 else (if files[0].used then 1 else 0) + UsedCount(files[1..])
  }

  predicate Distinct(files: seq<File>) {
    forall i, j | 0 <= i < j < |files| :: !(files[i].used && files[j].used && files[i].name == files[j].name)
  }

  predicate Consistent(files: seq<File>, count: int) {
    && |files| == MAX_FILES
    && AllOk(files)
    && Distinct(files)
    && count == UsedCount(files)
  }

  // -------------------------------------------------------- slots as a map

  lemma {:induction false} CountAt(files: seq<File>, i: nat, f: File)
    requires i < |files|
    ensures UsedCount(files[i := f]) == UsedCount(files) - (if files[i].used then 1 else 0) + (if f.used then 1 else 0)
  {
    if i == 0 {
      assert files[0 := f][1..] == files[1..];
    } else {
      CountAt(files[1..], i - 1, f);
      assert files[i := f][1..] == files[1..][i - 1 := f];
    }
  }

  lemma {:induction false} CountFull(files: seq<File>)
    ensures UsedCount(files) <= |files|
    ensures UsedCount(files) == |files| <==> forall i | 0 <= i < |files| :: files[i].used
  {
    if files != [] {
      CountFull(files[1..]);
      assert forall i | 1 <= i < |files| :: files[i] == files[1..][i - 1];
    }
  }

  /** Distinct names make the lookup independent of slot order. */
  lemma LookupIs(files: seq<File>, i: nat, name: string)
    requires Distinct(files) && i < |files| && files[i].used && files[i].name == name
    requires AllOk(files)
    ensures Find(files, name) == i
    ensures Lookup(files, name) == Some(files[i].data[..files[i].size])
  {
  }

  lemma FindOther(files: seq<File>, r: seq<File>, i: nat, n: string)
    requires i < |files| && |r| == |files| && (forall j | 0 <= j < |files| && j != i :: r[j] == files[j])
    requires !(files[i].used && files[i].name == n) && !(r[i].used && r[i].name == n)
    ensures Find(r, n) == Find(files, n) && (Find(r, n) < |r| ==> Find(r, n) != i)
  {
  }

  /** Writing a used slot whose name no other used slot has updates the map at that name. */
  lemma StoreAt(files: seq<File>, i: nat, f: File)
    requires Distinct(files) && i < |files| && f.used && FileOk(f) && AllOk(files)
    requires forall j | 0 <= j < |files| && j != i :: !(files[j].used && files[j].name == f.name)
    requires files[i].used ==> files[i].name == f.name
    ensures var r := files[i := f];
            && Distinct(r) && AllOk(r)
            && Lookup(r, f.name) == Some(f.data[..f.size])
            && forall n | n != f.name :: Lookup(r, n) == Lookup(files, n)
  {
    var r := files[i := f];
    assert AllOk(r) && Distinct(r);
    LookupIs(r, i, f.name);
    forall n | n != f.name ensures Lookup(r, n) == Lookup(files, n) { FindOther(files, r, i, n); }
  }

  lemma NotFound(files: seq<File>, name: string)
    requires forall j | 0 <= j < |files| :: !(files[j].used && files[j].name == name)
    ensures Find(files, name) == |files|
  {
  }

  /** Clearing a slot removes its name. */
  lemma RemoveAt(files: seq<File>, i: nat)
    requires Distinct(files) && i < |files| && files[i].used && AllOk(files)
    ensures var r := files[i := files[i].(used := false)];
            && Distinct(r) && AllOk(r)
            && Lookup(r, files[i].name) == None
            && forall n | n != files[i].name :: Lookup(r, n) == Lookup(files, n)
  {
    var r := files[i := files[i].(used := false)];
    assert AllOk(r) && Distinct(r);
    NotFound(r, files[i].name);
    forall n | n != files[i].name ensures Lookup(r, n) == Lookup(files, n) { FindOther(files, r, i, n); }
  }

  lemma SomeFree(files: seq<File>, i: nat)
    requires |files| == MAX_FILES && UsedCount(files) < MAX_FILES && i < |files|
        && forall j | 0 <= j <= i :: files[j].used
    ensures i + 1 < MAX_FILES
  {
    CountFull(files);
  }

  lemma {:induction false} NoneUsed(files: seq<File>)
    requires forall i | 0 <= i < |files| :: !files[i].used
    ensures UsedCount(files) == 0
  {
    if files != [] { NoneUsed(files[1..]); }
  }

  // ------------------------------------------------------------- long names

  /** The name a new file gets: at most 63 characters of the one asked for. */
  function Cut(name: string): (r: string)
    ensures |r| < NAME_LEN && (r == name <==> |name| < NAME_LEN)
  {
    name[..Min(|name|, 63)]
  }

  function NewFile(name: string): (f: File)
    ensures FileOk(f)
  {
    File(Cut(name), 0, true, seq(4096, _ => '\0'))
  }

  predicate FirstUnused(files: seq<File>, i: nat) {
    i < |files| && !files[i].used && forall k | 0 <= k < i :: files[k].used
  }

  /** The slots differ by a new file in the first free slot. */
  ghost predicate Added(before: seq<File>, after: seq<File>, name: string) {
    exists i :: 0 <= i < |before| && FirstUnused(before, i) && after == before[i := NewFile(name)]
  }

  lemma LongNotFound(files: seq<File>, name: string)
    requires AllOk(files) && NAME_LEN <= |name|
    ensures Find(files, name) == |files|
  {
    forall j | 0 <= j < |files| ensures files[j].name != name { assert FileOk(files[j]); }
    NotFound(files, name);
  }

  /** After a file was created, looking its name up again succeeds exactly for names of less
      than 64 characters; tmpfs_write relies on it for all. */
  lemma FoundAgainIff(files: seq<File>, after: seq<File>, name: string)
    requires AllOk(files) && Find(files, name) == |files| && Added(files, after, name)
    ensures Find(after, name) < |after| <==> |name| < NAME_LEN
  {
    var i :| 0 <= i < |files| && FirstUnused(files, i) && after == files[i := NewFile(name)];
    if NAME_LEN <= |name| {
      LongNotFound(after, name);
    } else {
      assert after[i].used && after[i].name == name;
    }
  }

  /** A cut name is a second file of that name exactly when one was there: creation keeps names
      distinct if and only if the name, cut, is new. */
  lemma AddedDistinctIff(files: seq<File>, after: seq<File>, name: string)
    requires Distinct(files) && AllOk(files) && Added(files, after, name)
    ensures AllOk(after) && UsedCount(after) == UsedCount(files) + 1
    ensures Distinct(after) <==> Lookup(files, Cut(name)) == None
    ensures Distinct(after) ==> Lookup(after, Cut(name)) == Some("")
                                && forall n | n != Cut(name) :: Lookup(after, n) == Lookup(files, n)
  {
    var i :| 0 <= i < |files| && FirstUnused(files, i) && after == files[i := NewFile(name)];
    CountAt(files, i, NewFile(name));
    var k := Find(files, Cut(name));
    if k < |files| {
      assert after[k].used && after[k].name == after[i].name && k != i;
      assert !Distinct(after);
    } else {
      StoreAt(files, i, NewFile(name));
    }
  }

  /** The first long name: sixty-four letters, on an empty file system. */
  lemma LongNameLost()
    ensures var none, name := seq(32, _ => File("", 0, false, seq(4096, _ => '\0'))), seq(64, _ => 'a');
            Find(none, name) == 32 && Find(none[0 := NewFile(name)], name) == 32
  {
    var none, name := seq(32, _ => File("", 0, false, seq(4096, _ => '\0'))), seq(64, _ => 'a');
    LongNotFound(none, name);
    LongNotFound(none[0 := NewFile(name)], name);
  }

  /** tmpfs_write: no slot was free, so many bytes were stored, or they went through the null
      pointer of a file that was not found again. */
  datatype Writing = NoSlot | Stored(bytes: nat) | ThroughNull

  class FileSystem {
    const files: array<File>
    var fileCount: int

    ghost predicate Valid()
      reads this, files
    {
      Consistent(files[..], fileCount)
    }

    ghost function At(name: string): (r: Option<string>)
      requires Valid()
      reads this, files
    {
      Lookup(files[..], name)
    }

    constructor ()
      ensures Valid() && fresh(files) && forall n :: At(n) == None
    {
      files := new File[32](_ => File("", 0, false, seq(4096, _ => '\0')));
      fileCount := 0;
      new;
      CountFull(files[..]);
      NoneUsed(files[..]);
    }

    method FindFile(name: string) returns (i: nat)
      requires files.Length == MAX_FILES
      ensures i == Find(files[..], name)
    {
      i := 0;
      while i < 32
        invariant i <= 32 && forall j | 0 <= j < i :: !(files[j].used && files[j].name == name)
      {
        if files[i].used && files[i].name == name { return; }
        i := i + 1;
      }
    }

    /** Succeeds unless the name is new and every slot is used.  Names are kept distinct exactly
        when the name, cut to 63 characters, is not in use under the cut name. */
    method Create(name: string) returns (r: int)
      requires Valid()
      modifies this`fileCount, files
      ensures r == (if old(At(name)).None? && old(fileCount) == MAX_FILES then -1 else 0)
      ensures if old(At(name)).None? && old(fileCount) < MAX_FILES
              then Added(old(files[..]), files[..], name) && fileCount == old(fileCount) + 1
              else files[..] == old(files[..]) && fileCount == old(fileCount)
      ensures old(fileCount) <= MAX_FILES && (NAME_LEN <= |name| ==> old(At(name)).None?)
      ensures Valid() <==> !(NAME_LEN <= |name| && r == 0 && old(At(Cut(name))).Some?)
      ensures Valid() ==> (forall n | n != Cut(name) :: At(n) == old(At(n)))
      ensures Valid() ==> At(Cut(name)) == if r == 0 && old(At(name)).None? then Some("") else old(At(Cut(name)))
    {
      CountFull(files[..]);
      if NAME_LEN <= |name| { LongNotFound(files[..], name); }
      var i := FindFile(name);
      if i < 32 { return 0; }
      if MAX_FILES <= fileCount { return -1; }
      i := 0;
      while files[i].used
        invariant files[..] == old(files[..]) && fileCount == old(fileCount)
        invariant i < 32 && forall j | 0 <= j < i :: files[j].used
        decreases 32 - i
      {
        SomeFree(files[..], i);
        i := i + 1;
      }
      files[i] := NewFile(name);
      fileCount := fileCount + 1;
      assert FirstUnused(old(files[..]), i) && files[..] == old(files[..])[i := NewFile(name)];
      AddedDistinctIff(old(files[..]), files[..], name);
      return 0;
    }

    method StoreData(i: nat, name: string, data: string) returns (r: nat)
      requires Valid() && i < 32 && i == Find(files[..], name)
      modifies files
      ensures Valid() && forall n | n != name :: At(n) == old(At(n))
      ensures r == (if |data| < DATA_SIZE then |data| else DATA_SIZE) && At(name) == Some(data[..r])
    {
      r := |data|;
      if 4096 < r { r := 4096; }
      ghost var before := files[..];
      assert FileOk(before[i]);
      ghost var f := before[i].(size := r, data := data[..r] + before[i].data[r..]);
      StoreAt(before, i, f);
      CountAt(before, i, f);
      files[i] := files[i].(size := r, data := data[..r] + files[i].data[r..]);
      assert files[..] == before[i := f] && f.data[..r] == data[..r];
    }

    /** Stores at most 4096 bytes under the name, creating the file if need be.  The store goes
        through a null pointer exactly when a file was created under a cut name. */
    method Write(name: string, data: string) returns (r: Writing)
      requires Valid()
      modifies this`fileCount, files
      ensures r == NoSlot <==> old(At(name)).None? && old(fileCount) == MAX_FILES
      ensures r == ThroughNull <==> NAME_LEN <= |name| && old(fileCount) < MAX_FILES
      ensures r == ThroughNull ==> Added(old(files[..]), files[..], name)
      ensures r == NoSlot ==> files[..] == old(files[..]) && fileCount == old(fileCount)
      ensures r.Stored? ==> Valid() && r.bytes == Min(|data|, DATA_SIZE) && At(name) == Some(data[..r.bytes])
      ensures r.Stored? ==> forall n | n != name :: At(n) == old(At(n))
    {
      var i := FindFile(name);
      if i == 32 {
        var ok := Create(name);
        if ok != 0 { return NoSlot; }
        FoundAgainIff(old(files[..]), files[..], name);
        i := FindFile(name);
        if i == 32 { return ThroughNull; }
      }
      var n := StoreData(i, name, data);
      r := Stored(n);
    }

    method Read(name: string, max: nat) returns (r: int, data: string)
      requires Valid()
      ensures match At(name)
              case None => r == -1 && data == ""
              case Some(c) => var k := if |c| < max then |c| else max; r == k && data == c[..k]
    {
      var i := FindFile(name);
      if i == 32 { return -1, ""; }
      var len := files[i].size;
      if max < len { len := max; }
      assert FileOk(files[..][i]);
      data := files[i].data[..len];
      r := len;
    }

    method Delete(name: string) returns (r: int)
      requires Valid()
      modifies this`fileCount, files
      ensures Valid() && At(name) == None && forall n | n != name :: At(n) == old(At(n))
      ensures if old(At(name)).None? then r == -1 && fileCount == old(fileCount)
              else r == 0 && fileCount == old(fileCount) - 1 < MAX_FILES
    {
      CountFull(files[..]);
      var i := FindFile(name);
      if i == 32 { return -1; }
      RemoveAt(files[..], i);
      CountAt(files[..], i, files[i].(used := false));
      files[i] := files[i].(used := false);
      fileCount := fileCount - 1;
      assert files[..] == old(files[..])[i := old(files[i]).(used := false)];
      return 0;
    }
  }
}
