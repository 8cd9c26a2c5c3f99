/** Page images, and the page-addressed files they are written to. */
module Disk {
  import opened Bytes

  const PAGE_SIZE := 4096
  const PAGE_HEADER := 16

  type PageData = d: seq<Byte> | |d| == PAGE_SIZE witness Zeros()

  function Zeros(): (d: seq<Byte>)
    ensures |d| == PAGE_SIZE
  {
    seq(PAGE_SIZE, i requires 0 <= i < PAGE_SIZE => 0)
  }

  /** The bytes of a freshly initialised page: its number, no records, no next page. */
  function InitData(pid: Int32): PageData {
    WriteAt(WriteAt(WriteAt(Zeros(), 0, IntBytes(pid)), 4, IntBytes(0)), 8, IntBytes(-1))
  }

  /** The part of a page that its records live in: the record count and everything past the
      header.  The page number and the next-page link are not part of it. */
  function Body(d: PageData): seq<Byte> {
    d[4..8] + d[PAGE_HEADER..]
  }

  /** A hole read back as zeros holds the same records as a page initialised in memory. */
  lemma FreshBodyIsZero(pid: Int32)
    ensures Body(InitData(pid)) == Body(Zeros())
  {
    var a := WriteAt(Zeros(), 0, IntBytes(pid));
    var b := WriteAt(a, 4, IntBytes(0));
    var c := WriteAt(b, 8, IntBytes(-1));
    assert IntBytes(0) == Zeros()[4..8];
    assert c[4..8] == b[4..8];
    assert c[12..] == b[12..] == a[12..] == Zeros()[12..];
    assert c[16..] == c[12..][4..];
  }

  /** The files by path, each a sequence of whole pages. */
  type Files = map<string, seq<PageData>>

  function Pages(files: Files, path: string): seq<PageData> {
    if path in files then files[path] else []
  }

  function ZeroPages(n: nat): (pages: seq<PageData>)
    ensures |pages| == n && forall k :: 0 <= k < n ==> pages[k] == Zeros()
  {
    if n == 0 then [] else ZeroPages(n - 1) + [Zeros()]
  }

  function Written(pages: seq<PageData>, pid: nat, data: PageData): (pages': seq<PageData>)
    ensures |pages'| == if pid < |pages| then |pages| else pid + 1
    ensures pages'[pid] == data
    ensures forall k :: 0 <= k < |pages'| && k != pid ==> pages'[k] == if k < |pages| then pages[k] else Zeros()
  {
    if pid < |pages| then pages[pid := data]
    else pages + ZeroPages(pid - |pages|) + [data]
  }

  /** Writing past the end of a file leaves zero-filled pages in between. */
  function WritePage(files: Files, path: string, pid: nat, data: PageData): Files {
    files[path := Written(Pages(files, path), pid, data)]
  }

  /** The data found at a page: what is on disk, or a fresh page past the end of the file. */
  function ReadPage(files: Files, path: string, pid: nat): PageData
    requires pid < 0x8000_0000
  {
    if pid < |Pages(files, path)| then Pages(files, path)[pid] else InitData(pid)
  }

  /** Writing one page shows in that page, and in the records of no other. */
  lemma WriteIsLocal(files: Files, path: string, pid: nat, data: PageData, path': string, pid': nat)
    requires pid' < 0x8000_0000
    ensures var files' := WritePage(files, path, pid, data);
      if path' == path && pid' == pid then ReadPage(files', path', pid') == data
      else Body(ReadPage(files', path', pid')) == Body(ReadPage(files, path', pid'))
  {
    FreshBodyIsZero(pid');
  }

  /** Page-addressed file access; opening and writing are taken to succeed. */
  class DiskManager {
    var files: Files

    constructor (files: Files)
      ensures this.files == files
    {
      this.files := files;
    }

    /** How many whole pages a file has. */
    method PageCount(path: string) returns (n: nat)
      ensures n == |Pages(files, path)|
    {
      n := |Pages(files, path)|;
    }

    method Read(path: string, pid: nat) returns (data: PageData)
      requires pid < |Pages(files, path)|
      ensures data == Pages(files, path)[pid]
    {
      data := Pages(files, path)[pid];
    }

    /** Opens a file for writing from nothing. */
    method Truncate(path: string)
      modifies this
      ensures files == old(files)[path := []]
    {
      files := files[path := []];
    }

    method Write(path: string, pid: nat, data: PageData)
      modifies this
      ensures files == WritePage(old(files), path, pid, data)
    {
      files := WritePage(files, path, pid, data);
    }
  }
}
