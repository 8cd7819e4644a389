/** Byte images: writing a buffer at an offset, the page of an image, and the
    per-process swap file, which is a byte store read and written at
    offsets. */
module Bytes {
  import opened Hardware

  /** `s` with the bytes at `off .. off + |buf|` replaced by `buf`. */
  function Overwrite(s: seq<byte>, buf: seq<byte>, off: nat): (r: seq<byte>)
    requires off + |buf| <= |s|
    ensures |r| == |s|
    ensures r[off..off + |buf|] == buf
    ensures forall k :: off <= k < off + |buf| ==> r[k] == buf[k - off]
    ensures forall k :: 0 <= k < |s| && !(off <= k < off + |buf|) ==> r[k] == s[k]
  {
    s[..off] + buf + s[off + |buf|..]
  }

  /** Page `p` of the image `s`: the bytes at `p * PageSize ..` of length
      `PageSize`. */
  function Page(s: seq<byte>, p: nat): (r: seq<byte>)
    requires (p + 1) * PageSize <= |s|
    ensures |r| == PageSize
    ensures forall k :: 0 <= k < PageSize ==> r[k] == s[p * PageSize + k]
  {
    s[p * PageSize..(p + 1) * PageSize]
  }

  /** Writing at most a page at a page boundary leaves every other page as
      it was, and a whole page written replaces that page. */
  lemma PageOfOverwrite(s: seq<byte>, buf: seq<byte>, p: nat, q: nat)
    requires |buf| <= PageSize
    requires (p + 1) * PageSize <= |s| && (q + 1) * PageSize <= |s|
    ensures p != q ==> Page(Overwrite(s, buf, p * PageSize), q) == Page(s, q)
    ensures p == q && |buf| == PageSize ==> Page(Overwrite(s, buf, p * PageSize), q) == buf
  {
    var r := Overwrite(s, buf, p * PageSize);
    if p != q {
      assert p < q ==> (p + 1) * PageSize <= q * PageSize;
      assert q < p ==> (q + 1) * PageSize <= p * PageSize;
      assert forall k :: 0 <= k < PageSize ==> Page(r, q)[k] == Page(s, q)[k];
    }
  }

  /** An image of whole pages is determined by its pages. */
  lemma PagesDetermineImage(a: seq<byte>, b: seq<byte>, n: nat)
    requires |a| == n * PageSize && |b| == n * PageSize
    requires forall p :: 0 <= p < n ==> Page(a, p) == Page(b, p)
    ensures a == b
  {
    forall k | 0 <= k < |a|
      ensures a[k] == b[k]
    {
      var p := k / PageSize;
      assert p * PageSize <= k < (p + 1) * PageSize;
      assert Page(a, p)[k - p * PageSize] == Page(b, p)[k - p * PageSize];
    }
  }

  /** Copies `data` into `mem` at offset `at` (the effect of an `OpenFile`
      read into main memory). */
  method CopyIn(mem: array<byte>, at: nat, data: seq<byte>)
    requires at + |data| <= mem.Length
    modifies mem
    ensures mem[..] == Overwrite(old(mem[..]), data, at)
  {
    forall k | 0 <= k < |data| {
      mem[at + k] := data[k];
    }
    assert forall k :: 0 <= k < mem.Length ==> mem[..][k] == Overwrite(old(mem[..]), data, at)[k];
  }

  /** How many of `len` bytes at offset `off` a file of `size` bytes takes
      part in: a transfer that runs past the end of the file is cut short
      there, and one that starts at or past the end moves nothing. */
  function Fit(len: nat, off: nat, size: nat): (k: nat)
    ensures k <= len && (k > 0 ==> off + k <= size)
    ensures off + len <= size ==> k == len
    ensures off >= size ==> k == 0
  {
    if off >= size then 0 else Min(len, size - off)
  }

  /** The bytes a read of `len` bytes at `off` of the file `s` delivers. */
  function Read(s: seq<byte>, len: nat, off: nat): (r: seq<byte>)
    ensures |r| == Fit(len, off, |s|)
    ensures |r| > 0 ==> r == s[off..off + |r|]
  {
    var k := Fit(len, off, |s|);
    if k == 0 then [] else s[off..off + k]
  }

  /** The file `s` after a write of `buf` at `off`. */
  function Written(s: seq<byte>, buf: seq<byte>, off: nat): (r: seq<byte>)
    ensures |r| == |s|
    ensures off + |buf| <= |s| ==> r == Overwrite(s, buf, off)
    ensures forall k :: 0 <= k < |s| && !(off <= k < off + |buf|) ==> r[k] == s[k]
  {
    var k := Fit(|buf|, off, |s|);
    if k == 0 then s else Overwrite(s, buf[..k], off)
  }

  /** Once the frame at `ppn` is loaded with page `vpn` of the file `swap`,
      that frame holds the page when the file covers it, and every other
      frame is as before. */
  lemma LoadedFrame(mem: seq<byte>, swap: seq<byte>, vpn: nat, ppn: nat, f: nat)
    requires |mem| == MemorySize && ppn < NumPhysPages && f < NumPhysPages
    ensures var r := Overwrite(mem, Read(swap, PageSize, vpn * PageSize), ppn * PageSize);
      (f != ppn ==> Page(r, f) == Page(mem, f)) &&
      (f == ppn && (vpn + 1) * PageSize <= |swap| ==> Page(r, f) == Page(swap, vpn))
  {
    PageOfOverwrite(mem, Read(swap, PageSize, vpn * PageSize), ppn, f);
  }

  /** A per-process swap file: a byte store of fixed length, read with
      `Read` and written at offsets. */
  class SwapFile {
    var bytes: seq<byte>

    /** A freshly created swap file of `size` bytes, read as zeros. */
    constructor (size: nat)
      ensures bytes == seq(size, _ => 0)
    {
      bytes := seq(size, _ => 0);
    }

    /** Writes `buf` at `off`, cut short at the end of the file. */
    method WriteAt(buf: seq<byte>, off: nat)
      modifies this
      ensures bytes == Written(old(bytes), buf, off)
    {
      var k := Fit(|buf|, off, |bytes|);
      if k > 0 {
        bytes := Overwrite(bytes, buf[..k], off);
      }
    }
  }
}
