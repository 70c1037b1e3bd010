/**
 * The host directory each cix program works in, as the calls stat, unlink,
 * ifstream and ofstream see it: regular files by name, the names of
 * subdirectories, and the names the host refuses to open or unlink. Every
 * failure carries the errno the host reports.
 */
module HostFs {
  import opened Outcomes
  import opened Wire

  datatype Disk = Disk(files: map<string, seq<byte>>, dirs: set<string>, denied: set<string>)

  /** No name is both a file and a directory, "" names nothing, and files fit an int32_t count. */
  predicate Valid(d: Disk)
  {
    d.files.Keys !! d.dirs && "" !in d.files && "" !in d.dirs &&
    forall n :: n in d.files ==> |d.files[n]| < 0x8000_0000
  }

  datatype Stat = RegularFile(size: nat) | Directory

  /** stat: what the name is, or ENOENT. */
  function StatOf(d: Disk, name: string): (r: Result<Stat, nat>)
    ensures r.Success? <==> name in d.files || name in d.dirs
    ensures r.Success? && r.value.RegularFile? ==> name in d.files && r.value.size == |d.files[name]|
    ensures r.Failure? ==> r.error == ENOENT
  {
    if name in d.dirs then Success(Directory)
    else if name in d.files then Success(RegularFile(|d.files[name]|))
    else Failure(ENOENT)
  }

  /** ifstream open for reading: the file's bytes, or why it cannot be opened. */
  function OpenForRead(d: Disk, name: string): (r: Result<seq<byte>, nat>)
    ensures r.Success? <==> name in d.files && name !in d.denied
    ensures r.Success? ==> r.value == d.files[name]
  {
    if name in d.denied then Failure(EACCES)
    else if name in d.files then Success(d.files[name])
    else if name in d.dirs then Failure(EISDIR)
    else Failure(ENOENT)
  }

  /** ofstream open for writing: the file now exists and is empty, or why it cannot be. */
  function OpenForWrite(d: Disk, name: string): (r: Result<Disk, nat>)
    ensures r.Success? <==> name !in d.dirs && name !in d.denied && name != ""
    ensures r.Success? ==> r.value == d.(files := d.files[name := []])
    ensures r.Failure? ==> r.error in {ENOENT, EISDIR, EACCES}
  {
    if name == "" then Failure(ENOENT)
    else if name in d.dirs then Failure(EISDIR)
    else if name in d.denied then Failure(EACCES)
    else Success(d.(files := d.files[name := []]))
  }

  /** unlink: the file is gone, or why it cannot be removed. */
  function Unlink(d: Disk, name: string): (r: Result<Disk, nat>)
    ensures r.Success? <==> name in d.files && name !in d.dirs && name !in d.denied
    ensures r.Success? ==> r.value == d.(files := d.files - {name})
    ensures r.Failure? ==> r.error in {ENOENT, EISDIR, EACCES}
  {
    if name in d.dirs then Failure(EISDIR)
    else if name !in d.files then Failure(ENOENT)
    else if name in d.denied then Failure(EACCES)
    else Success(d.(files := d.files - {name}))
  }

  /** The names a host lets a program create or overwrite. */
  predicate Writable(d: Disk, name: string)
  {
    name != "" && name !in d.dirs && name !in d.denied
  }

  /** Writing the received bytes into the file just opened. */
  function Written(d: Disk, name: string, data: seq<byte>): Disk
  {
    d.(files := d.files[name := data])
  }

  /** Opening, then writing fewer than 2^31 bytes, keeps the host valid. */
  lemma WrittenValid(d: Disk, name: string, data: seq<byte>)
    requires Valid(d) && OpenForWrite(d, name).Success? && |data| < 0x8000_0000
    ensures Valid(Written(d, name, data))
  {
  }

  lemma UnlinkValid(d: Disk, name: string)
    requires Valid(d) && Unlink(d, name).Success?
    ensures Valid(Unlink(d, name).value)
  {
  }
}
