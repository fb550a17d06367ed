/** Chunk headers and request sizes. */
module Chunks {
  import opened Words

  /** The offset from a chunk to the memory handed out (TWO_SIZE_T_SIZES). */
  const PAYLOAD_OFFSET := 32
  const CHUNK_OVERHEAD := 8
  const CHUNK_ALIGN := 16
  const MIN_CHUNK_SIZE := 32
  const MIN_REQUEST := 23
  const MAX_SMALL_REQUEST := 232
  const MAX_REQUEST := WORD - 128
  const TOP_FOOT_SIZE := 8

  /** The `head` word, as the code reads it: the chunk's size and the in-use bits of the chunk and of
      the one before. */
  datatype Head = Head(size: nat, cinuse: bool, pinuse: bool)
  {
    /** `(head & INUSE_BITS) != PINUSE_BIT` */
    predicate IsInuse() { cinuse || !pinuse }
  }

  /** The word written for a header, `size | CINUSE_BIT | PINUSE_BIT` as far as the flags are wanted.
      Bits that `size` already has stay set. */
  function Pack(h: Head): nat
  {
    h.size + (if h.cinuse && h.size / 2 % 2 == 0 then 2 else 0) + (if h.pinuse && h.size % 2 == 0 then 1 else 0)
  }

  /** `chunksize`, `cinuse` and `pinuse` of a word. */
  function Unpack(w: nat): Head
  {
    Head(w / 8 * 8, w / 2 % 2 == 1, w % 2 == 1)
  }

  lemma ByEight(w: nat, q: nat, r: nat)
    requires w == 8 * q + r && r < 8
    ensures w / 8 == q && w % 8 == r
  {
  }

  lemma ByTwo(w: nat, q: nat, r: nat)
    requires w == 2 * q + r && r < 2
    ensures w / 2 == q && w % 2 == r
  {
  }

  lemma ByFour(s: nat, q: nat, r: nat)
    requires s == 4 * q + r && r < 4
    ensures s / 2 % 2 == r / 2 && s % 2 == r % 2
  {
    ByTwo(s, 2 * q + r / 2, r % 2);
    ByTwo(s / 2, q, r / 2);
  }

  /** The flags read back are those wanted and those that are in the size itself. */
  lemma FlagsRead(h: Head)
    ensures Unpack(Pack(h)).cinuse == (h.cinuse || h.size / 2 % 2 == 1)
    ensures Unpack(Pack(h)).pinuse == (h.pinuse || h.size % 2 == 1)
  {
    var q, r := h.size / 4, h.size % 4;
    ByFour(h.size, q, r);
    var c := if h.cinuse || r / 2 == 1 then 1 else 0;
    var p := if h.pinuse || r % 2 == 1 then 1 else 0;
    ByFour(Pack(h), q, 2 * c + p);
  }

  /** A header is read back as it was written if and only if its size leaves the flag bits alone. */
  lemma PackRoundTrip(h: Head)
    ensures Unpack(Pack(h)) == h <==> h.size % 8 == 0
  {
    FlagsRead(h);
    var q, r := h.size / 8, h.size % 8;
    ByEight(h.size, q, r);
    if r == 0 {
      ByFour(h.size, 2 * q, 0);
      ByEight(Pack(h), q, Pack(h) - h.size);
    } else if Unpack(Pack(h)) == h {
      ByEight(h.size, Pack(h) / 8, 0);
    }
  }

  /** A size whose word reads as in use, whatever flags are wanted: bit 1 is set. */
  predicate ReadsInUse(size: nat) { size / 2 % 2 == 1 }

  /** The header of top, `size | PINUSE_BIT`: `size` may be any number of bytes. */
  function TopHead(size: nat): (h: Head)
    ensures h.size == size && h.pinuse
    ensures h.cinuse == Unpack(Pack(Head(size, false, true))).cinuse
  {
    FlagsRead(Head(size, false, true));
    Head(size, ReadsInUse(size), true)
  }

  /** What has to be added to an address to align it. */
  function AlignOffset(a: nat): nat
  {
    if a % CHUNK_ALIGN == 0 then 0 else CHUNK_ALIGN - a % CHUNK_ALIGN
  }

  function PadRequest(bytes: nat): nat
  {
    (bytes + CHUNK_OVERHEAD + CHUNK_ALIGN - 1) / CHUNK_ALIGN * CHUNK_ALIGN
  }

  /** The chunk size `nb` that `Alloc` looks for. */
  function RequestSize(bytes: nat): nat
  {
    if bytes < MIN_REQUEST then MIN_CHUNK_SIZE
    else if bytes >= MAX_REQUEST then WORD - 1
    else PadRequest(bytes)
  }

  /** The size of the chunk handed out for `nb` from a free chunk of size `s`: remainders that
      could not be a chunk of their own stay with it. */
  function HandedOut(s: nat, nb: nat): nat
    requires nb <= s
  {
    if s - nb < MIN_CHUNK_SIZE then s else nb
  }

  lemma RequestSizeOk(bytes: nat)
    requires bytes < MAX_REQUEST
    ensures var nb := RequestSize(bytes);
      (&& nb % CHUNK_ALIGN == 0 && MIN_CHUNK_SIZE <= nb < WORD && bytes + CHUNK_OVERHEAD <= nb
       && (bytes <= MAX_SMALL_REQUEST ==> nb <= 240)
       && (bytes > MAX_SMALL_REQUEST ==> nb >= 256)
       && (bytes >= MIN_REQUEST ==> nb < bytes + CHUNK_OVERHEAD + CHUNK_ALIGN))
  {
  }

  lemma UpToSixteen(x: nat, m: nat)
    requires m % 16 == 0 && m >= x
    ensures (x + 15) / 16 * 16 <= m && (x + 15) / 16 * 16 >= x && (x + 15) / 16 * 16 % 16 == 0
  {
    var q, k := (x + 15) / 16, m / 16;
    assert m == 16 * k && x + 15 == 16 * q + (x + 15) % 16;
  }

  /** Below 2^64 - 128 bytes, a request is for the least multiple of 16 that is a chunk's size and
      holds it with one header word. */
  lemma RequestSizeLeast(bytes: nat, m: nat)
    requires bytes < 0xFFFF_FFFF_FFFF_FF80
    requires m % 16 == 0 && m >= 32 && m >= bytes + 8
    ensures RequestSize(bytes) % 16 == 0 && RequestSize(bytes) >= 32 && RequestSize(bytes) >= bytes + 8
    ensures RequestSize(bytes) <= m
  {
    UpToSixteen(bytes + 8, m);
  }

  /** From there on it is for more than there can be. */
  lemma RequestTooBig(bytes: nat)
    requires bytes >= 0xFFFF_FFFF_FFFF_FF80
    ensures RequestSize(bytes) == 0xFFFF_FFFF_FFFF_FFFF
  {
  }

  /** The offset to the next address that is a multiple of 16, none if this one is. */
  lemma AlignOffsetLeast(a: nat)
    ensures (a + AlignOffset(a)) % 16 == 0 && AlignOffset(a) < 16
  {
    var q := a / 16;
    assert a == 16 * q + a % 16;
    if a % 16 != 0 { assert a + AlignOffset(a) == 16 * (q + 1); }
  }

  /** Memory handed out starts 32 bytes into the chunk and may run 8 bytes past it, into the
      next chunk's unused `prev_foot`. Whether `bytes` of it stay inside a chunk of `size`. */
  predicate PayloadInside(bytes: nat, size: nat)
  {
    PAYLOAD_OFFSET + bytes <= size + CHUNK_OVERHEAD
  }

  /** The padding accounts for an 8-byte header only. The payload of an allocated chunk, whose
      size is `nb` or `nb + 16`, stays inside exactly in these cases. */
  lemma PayloadInsideIff(bytes: nat, extra: nat)
    requires bytes < MAX_REQUEST && extra in {0, 16}
    ensures PayloadInside(bytes, RequestSize(bytes) + extra) <==> bytes <= 8 || extra == 16
  {
  }
}
