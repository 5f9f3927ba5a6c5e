/** Request sizes and the rounding of sizes, on 64-bit words. */
module Requests {
  import opened PowersOfTwo

  const WORD: nat := 0x1_0000_0000_0000_0000
  const MAX_SIZE_T: nat := 0xFFFF_FFFF_FFFF_FFFF
  const HALF_MAX_SIZE_T: nat := 0x7FFF_FFFF_FFFF_FFFF
  const MIN_REQUEST: nat := 23
  const MAX_REQUEST: nat := 0xFFFF_FFFF_FFFF_FF80
  const MAX_SMALL_REQUEST: nat := 232
  const PAGE_SIZE: nat := 4096
  const SYS_ALLOC_PADDING: nat := 96
  const TRIM_THRESHOLD: nat := 0x20_0000

  /** `(s + (unit - 1)) & ~(unit - 1)` for a power of two, with wrap-around. */
  function AlignUp(s: nat, unit: nat): nat
    requires unit > 0
  {
    var x := (s + unit - 1) % WORD;
    x - x % unit
  }

  /** `align_offset(chunk2mem(p))`. */
  function AlignOffset(p: int): nat {
    (16 - p % 16) % 16
  }

  lemma AlignOffsetOk(p: int)
    ensures AlignOffset(p) < 16 && (p + AlignOffset(p)) % 16 == 0
    ensures p % 16 == 0 ==> AlignOffset(p) == 0
  {
  }

  /** `pad_request`. */
  function PadRequest(req: nat): nat {
    AlignUp((req + 8) % WORD, 16)
  }

  /** A request that fills its chunk is padded by the head word only. */
  lemma PadExact(req: nat)
    requires (req + 8) % 16 == 0 && req + 24 <= WORD
    ensures PadRequest(req) == req + 8
  {
  }

  /** `request2size`. */
  function Request2Size(req: nat): nat {
    if req < MIN_REQUEST then 32 else PadRequest(req)
  }

  /** The chunk size a request to `dlmalloc` asks for. */
  function RequestedSize(bytes: nat): nat {
    if bytes >= MAX_REQUEST then MAX_SIZE_T else Request2Size(bytes)
  }

  /** A padded request is the least chunk size with room for the bytes and the head word. */
  lemma Request2SizeIsLeast(bytes: nat)
    requires bytes < MAX_REQUEST
    ensures var nb := Request2Size(bytes);
      && nb % 16 == 0 && 32 <= nb && bytes + 8 <= nb < MAX_SIZE_T
      && (nb == 32 || nb < bytes + 24)
      && forall s: nat :: s % 16 == 0 && 32 <= s && bytes + 8 <= s ==> nb <= s
    ensures bytes <= MAX_SMALL_REQUEST <==> Request2Size(bytes) < 256
  {
  }

  /** The three branches in which `dlmalloc` computes the chunk size. */
  lemma RequestCases(bytes: nat)
    ensures bytes <= MAX_SMALL_REQUEST ==>
      && RequestedSize(bytes) == (if bytes < MIN_REQUEST then 32 else PadRequest(bytes))
      && 32 <= RequestedSize(bytes) < 248 && RequestedSize(bytes) % 16 == 0
    ensures MAX_SMALL_REQUEST < bytes < MAX_REQUEST ==>
      && RequestedSize(bytes) == PadRequest(bytes)
      && 256 <= RequestedSize(bytes) < MAX_SIZE_T && RequestedSize(bytes) % 16 == 0
    ensures bytes >= MAX_REQUEST ==> RequestedSize(bytes) == MAX_SIZE_T
  {
    if bytes < MAX_REQUEST {
      Request2SizeIsLeast(bytes);
    }
  }

  lemma RequestedIsChunk(bytes: nat)
    ensures RequestedSize(bytes) >= 32
  {
    if bytes < MAX_REQUEST {
      Request2SizeIsLeast(bytes);
    }
  }

  /** The padded size before it is cut to 64 bits. */
  function TrueSize(bytes: nat): nat {
    if bytes < MIN_REQUEST then 32 else (bytes + 23) / 16 * 16
  }

  lemma TrueSizeOk(bytes: nat)
    ensures TrueSize(bytes) >= 32 && TrueSize(bytes) % 16 == 0 && TrueSize(bytes) >= bytes + 8
  {
  }

  /** `request2size` is the padded size modulo 2^64. */
  lemma Request2SizeIs(bytes: nat)
    requires bytes < WORD
    ensures Request2Size(bytes) == TrueSize(bytes) % WORD
    ensures bytes < MAX_REQUEST ==> TrueSize(bytes) < WORD
  {
    if bytes >= MIN_REQUEST {
      var x := bytes + 23;
      AlignedWord(x, x / 16);
      AlignTwice(bytes);
    }
  }

  lemma AlignTwice(bytes: nat)
    requires bytes < WORD
    ensures PadRequest(bytes) == (bytes + 23) % WORD - (bytes + 23) % WORD % 16
  {
  }

  lemma AlignedWord(x: nat, q: nat)
    requires x < 2 * WORD && q == x / 16
    ensures x % WORD - x % WORD % 16 == q * 16 % WORD
  {
  }

  lemma PageAlignBounds(s: nat)
    requires s + PAGE_SIZE <= WORD
    ensures AlignUp(s, PAGE_SIZE) % PAGE_SIZE == 0 && s <= AlignUp(s, PAGE_SIZE) < s + PAGE_SIZE
  {
  }

  /** `asize` in `sys_alloc`: if it exceeds the request, nothing has wrapped around. */
  function SystemSize(nb: nat): nat {
    AlignUp((nb + SYS_ALLOC_PADDING) % WORD, PAGE_SIZE)
  }

  lemma SystemSizeOk(nb: nat)
    requires nb <= MAX_SIZE_T
    ensures SystemSize(nb) > nb ==>
      nb + SYS_ALLOC_PADDING <= SystemSize(nb) < nb + SYS_ALLOC_PADDING + PAGE_SIZE && SystemSize(nb) % PAGE_SIZE == 0
    ensures SystemSize(nb) < WORD
    ensures nb == MAX_SIZE_T ==> SystemSize(nb) <= nb
    ensures SystemSize(nb) > nb <==> nb + SYS_ALLOC_PADDING + PAGE_SIZE <= WORD
  {
  }

  /** What has to be asked for on top of the space that top already has. */
  function ExtraSize(nb: nat, topsize: nat): nat
    requires topsize <= nb
  {
    AlignUp((nb - topsize + SYS_ALLOC_PADDING) % WORD, PAGE_SIZE)
  }

  lemma ExtraSizeOk(nb: nat, topsize: nat, asize: nat)
    requires topsize <= nb && nb + SYS_ALLOC_PADDING <= asize < WORD && asize % PAGE_SIZE == 0
    ensures nb - topsize + SYS_ALLOC_PADDING <= ExtraSize(nb, topsize) <= asize && ExtraSize(nb, topsize) % 16 == 0
    ensures ExtraSize(nb, topsize) % PAGE_SIZE == 0
    ensures ExtraSize(nb, topsize) < nb - topsize + SYS_ALLOC_PADDING + PAGE_SIZE
  {
    hide AlignUp;
    var x := nb - topsize + SYS_ALLOC_PADDING;
    PagesBelow(asize, WORD);
    SumFits(x, 0);
    PageAlignBounds(x);
    PagesBelow(AlignUp(x, PAGE_SIZE), asize + PAGE_SIZE);
    PagesAdd(AlignUp(x, PAGE_SIZE), 0);
  }

  /** A whole number of pages below another is a page less at least. */
  lemma PagesBelow(x: nat, y: nat)
    requires x % PAGE_SIZE == 0 && y % PAGE_SIZE == 0 && x < y
    ensures x + PAGE_SIZE <= y
  {
  }

  /** The first request also fills up the page in which the break is. */
  function FirstSize(base: nat, asize: nat): nat {
    if base % PAGE_SIZE != 0 then asize + ((AlignUp(base, PAGE_SIZE) - base) % WORD) else asize
  }

  lemma FirstSizeOk(base: nat, asize: nat)
    requires base < HALF_MAX_SIZE_T && asize % PAGE_SIZE == 0
    ensures asize <= FirstSize(base, asize) < asize + PAGE_SIZE && (base + FirstSize(base, asize)) % 16 == 0
    ensures (base + FirstSize(base, asize)) % PAGE_SIZE == 0
  {
    hide AlignUp;
    PageAlignBounds(base);
    if base % PAGE_SIZE != 0 {
      var up := AlignUp(base, PAGE_SIZE) - base;
      SumFits(up, 0);
      PagesAdd(base + up, asize);
    } else {
      PagesAdd(base, asize);
    }
  }

  lemma PagesAdd(x: nat, y: nat)
    requires x % PAGE_SIZE == 0 && y % PAGE_SIZE == 0
    ensures (x + y) % 16 == 0 && (x + y) % PAGE_SIZE == 0
  {
    var k := x / PAGE_SIZE + y / PAGE_SIZE;
    assert x + y == k * PAGE_SIZE;
    Pages(k);
  }

  /** The test for wrap-around of an unsigned sum. */
  lemma SumGrows(a: nat, b: nat)
    requires a < WORD && b < WORD && (a + b) % WORD > a
    ensures (a + b) % WORD == a + b
  {
  }

  lemma SumFits(a: nat, b: nat)
    requires a + b < WORD
    ensures (a + b) % WORD == a + b
  {
  }

  /** The whole units of top beyond `pad`, keeping at least one: `extra` in `sys_trim`. */
  function TrimSize(topsize: nat, pad: nat): nat
    requires topsize > pad
  {
    ((topsize - pad + (PAGE_SIZE - 1)) / PAGE_SIZE - 1) * PAGE_SIZE
  }

  lemma TrimSizeOk(topsize: nat, pad: nat)
    requires topsize > pad
    ensures TrimSize(topsize, pad) < topsize - pad && TrimSize(topsize, pad) % 16 == 0
    ensures TrimSize(topsize, pad) % PAGE_SIZE == 0 && topsize - pad <= TrimSize(topsize, pad) + PAGE_SIZE
  {
    var k := (topsize - pad + (PAGE_SIZE - 1)) / PAGE_SIZE - 1;
    assert topsize - pad + (PAGE_SIZE - 1) == PAGE_SIZE * (k + 1) + (topsize - pad + (PAGE_SIZE - 1)) % PAGE_SIZE;
    Pages(k);
  }

  lemma Pages(k: nat)
    ensures k * PAGE_SIZE % PAGE_SIZE == 0 && k * PAGE_SIZE % 16 == 0
  {
    DivUnique(k * PAGE_SIZE, PAGE_SIZE, k, 0);
    DivUnique(k * PAGE_SIZE, 16, 256 * k, 0);
  }
}
