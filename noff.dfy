/** The NOFF executable header: ten 32-bit words (the magic number and three
    segment descriptors), read from the start of the executable in host byte
    order and converted when the file was written in the other byte order.
    The host is taken to be big-endian, where `WordToHost` reverses the bytes
    of a word. */
module Noff {
  import opened Hardware

  /** A 32-bit word as an unsigned number. */
  type Word = w: int | 0 <= w < 0x1_0000_0000

  const NOFFMAGIC: Word := 0xbadfad
  /** sizeof(NoffHeader): ten 4-byte words. */
  const NoffHeaderSize: nat := 40

  /** Byte `k` of `w`, counting from the least significant. */
  function ByteOf(w: Word, k: nat): byte
    requires k < 4
  {
    (if k == 0 then w % 0x100
     else if k == 1 then w / 0x100 % 0x100
     else if k == 2 then w / 0x1_0000 % 0x100
     else w / 0x100_0000) as byte
  }

  /** The word whose bytes, from the most significant, are `b3 b2 b1 b0`. */
  function Compose(b3: byte, b2: byte, b1: byte, b0: byte): (w: Word)
    ensures ByteOf(w, 3) == b3 && ByteOf(w, 2) == b2 && ByteOf(w, 1) == b1 && ByteOf(w, 0) == b0
  {
    var hi: int := b3 as int * 0x100 + b2 as int;
    var mid: int := hi * 0x100 + b1 as int;
    var w: int := mid * 0x100 + b0 as int;
    assert w / 0x100 == mid && w % 0x100 == b0 as int;
    assert mid / 0x100 == hi && mid % 0x100 == b1 as int;
    assert w / 0x1_0000 == mid / 0x100 && w / 0x100_0000 == mid / 0x1_0000 == hi / 0x100;
    w
  }

  /** A word is determined by its four bytes. */
  lemma ComposeBytes(w: Word)
    ensures Compose(ByteOf(w, 3), ByteOf(w, 2), ByteOf(w, 1), ByteOf(w, 0)) == w
  {
    var mid := w / 0x100;
    var hi := mid / 0x100;
    assert w / 0x1_0000 == hi && w / 0x100_0000 == hi / 0x100;
    assert w == mid * 0x100 + w % 0x100 && mid == hi * 0x100 + mid % 0x100;
  }

  /** Converts a little-endian word to host (big-endian) order by reversing
      its bytes. */
  function WordToHost(w: Word): (r: Word)
    ensures ByteOf(r, 0) == ByteOf(w, 3) && ByteOf(r, 1) == ByteOf(w, 2)
    ensures ByteOf(r, 2) == ByteOf(w, 1) && ByteOf(r, 3) == ByteOf(w, 0)
  {
    Compose(ByteOf(w, 0), ByteOf(w, 1), ByteOf(w, 2), ByteOf(w, 3))
  }

  lemma WordToHostInvolutive(w: Word)
    ensures WordToHost(WordToHost(w)) == w
  {
    ComposeBytes(w);
  }

  /** The word stored at `off`, assembled in host (big-endian) order. */
  function WordAt(image: seq<byte>, off: nat): (w: Word)
    requires off + 4 <= |image|
    ensures ByteOf(w, 3) == image[off] && ByteOf(w, 2) == image[off + 1]
    ensures ByteOf(w, 1) == image[off + 2] && ByteOf(w, 0) == image[off + 3]
  {
    Compose(image[off], image[off + 1], image[off + 2], image[off + 3])
  }

  datatype Segment = Segment(virtualAddr: Word, inFileAddr: Word, size: Word) {
    function Size(): nat { size }
    function FileAddr(): nat { inFileAddr }
  }

  datatype Header = Header(noffMagic: Word, code: Segment, initData: Segment, uninitData: Segment)

  /** The header as it lies in the first `NoffHeaderSize` bytes. */
  function RawHeader(image: seq<byte>): Header
    requires |image| >= NoffHeaderSize
  {
    Header(WordAt(image, 0),
           Segment(WordAt(image, 4), WordAt(image, 8), WordAt(image, 12)),
           Segment(WordAt(image, 16), WordAt(image, 20), WordAt(image, 24)),
           Segment(WordAt(image, 28), WordAt(image, 32), WordAt(image, 36)))
  }

  function SwappedSegment(s: Segment): Segment
  {
    Segment(WordToHost(s.virtualAddr), WordToHost(s.inFileAddr), WordToHost(s.size))
  }

  /** The header with every one of its ten words converted. */
  function Swapped(h: Header): Header
  {
    Header(WordToHost(h.noffMagic), SwappedSegment(h.code),
           SwappedSegment(h.initData), SwappedSegment(h.uninitData))
  }

  /** Conversion is applied when the magic number is wrong as read but right
      once converted. */
  predicate NeedsSwap(raw: Header)
  {
    raw.noffMagic != NOFFMAGIC && WordToHost(raw.noffMagic) == NOFFMAGIC
  }

  /** The header after the optional conversion. */
  function HostHeader(raw: Header): Header
  {
    if NeedsSwap(raw) then Swapped(raw) else raw
  }

  /** After the optional conversion the magic number is right exactly when it
      was right as read or right once converted. */
  lemma HostHeaderMagic(raw: Header)
    ensures HostHeader(raw).noffMagic == NOFFMAGIC <==>
            raw.noffMagic == NOFFMAGIC || WordToHost(raw.noffMagic) == NOFFMAGIC
  {
  }

  /** Converting twice gives back the header as read, so the conversion must
      be applied at most once. */
  lemma SwappedInvolutive(h: Header)
    ensures Swapped(Swapped(h)) == h
  {
    WordToHostInvolutive(h.noffMagic);
    WordToHostInvolutive(h.code.virtualAddr);
    WordToHostInvolutive(h.code.inFileAddr);
    WordToHostInvolutive(h.code.size);
    WordToHostInvolutive(h.initData.virtualAddr);
    WordToHostInvolutive(h.initData.inFileAddr);
    WordToHostInvolutive(h.initData.size);
    WordToHostInvolutive(h.uninitData.virtualAddr);
    WordToHostInvolutive(h.uninitData.inFileAddr);
    WordToHostInvolutive(h.uninitData.size);
  }

  /** The header structure that the address-space constructor reads the
      executable into and converts in place. */
  class NoffHeader {
    var noffMagic: Word
    var code: Segment
    var initData: Segment
    var uninitData: Segment

    function Value(): Header
      reads this
    {
      Header(noffMagic, code, initData, uninitData)
    }

    /** Reads the first `NoffHeaderSize` bytes of the executable. */
    constructor Read(executable: seq<byte>)
      requires |executable| >= NoffHeaderSize
      ensures Value() == RawHeader(executable)
    {
      var raw := RawHeader(executable);
      noffMagic, code, initData, uninitData := raw.noffMagic, raw.code, raw.initData, raw.uninitData;
    }
  }

  /** Converts all ten words of the header in place. */
  method SwapHeader(h: NoffHeader)
    modifies h
    ensures h.Value() == Swapped(old(h.Value()))
  {
    h.noffMagic := WordToHost(h.noffMagic);
    h.code := h.code.(size := WordToHost(h.code.size));
    h.code := h.code.(virtualAddr := WordToHost(h.code.virtualAddr));
    h.code := h.code.(inFileAddr := WordToHost(h.code.inFileAddr));
    h.initData := h.initData.(size := WordToHost(h.initData.size));
    h.initData := h.initData.(virtualAddr := WordToHost(h.initData.virtualAddr));
    h.initData := h.initData.(inFileAddr := WordToHost(h.initData.inFileAddr));
    h.uninitData := h.uninitData.(size := WordToHost(h.uninitData.size));
    h.uninitData := h.uninitData.(virtualAddr := WordToHost(h.uninitData.virtualAddr));
    h.uninitData := h.uninitData.(inFileAddr := WordToHost(h.uninitData.inFileAddr));
  }
}
