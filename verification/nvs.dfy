/**
 * The tag store of nvs.c: 8-bit tags with 16-bit values kept as 32-bit
 * words. Writes are collected in a RAM buffer (one word per tag, updated in
 * place or appended) and committed to an append-only log in the last 32 KiB
 * of flash; a read scans the log backwards, so the latest entry for a tag
 * wins. A log word is `tag << 24 | value & 0xffff`; bit 16 is clear in every
 * word written and set in erased flash, which is how the end of the log is
 * found.
 *
 * Flash is a sequence of words, the region's contents as read through the
 * memory map. Words are unsigned 32-bit values held as integers; the bitwise
 * operations the source uses are written out over them.
 */
module Nvs {
  import opened Ints

  /** nvs.c:15-19: 4096-byte erase pages, 256-byte write pages, 8 erase pages of store, 1024 bytes of buffer. */
  const EraseBytes := 4096
  const WriteBytes := 256
  const MaxPgs := 8
  const MaxMem := 1024

  /** The words of the flash region and of one write page, and the words the RAM buffer holds (see Geometry). */
  const LogWords := 0x2000
  const PageWords := 64
  const BufWords := 256

  const TagUnit := 0x100_0000
  const HalfUnit := 0x1_0000

  datatype Option<T> = None | Some(value: T)

  // ---------------------------------------------------------------------
  // Words

  /** Bitwise OR of two non-negative integers. */
  function Or(a: nat, b: nat): (r: nat)
    decreases a + b
  {
    if a == 0 then b
    else if b == 0 then a
    else 2 * Or(a / 2, b / 2) + (if a % 2 == 1 || b % 2 == 1 then 1 else 0)
  }

  /**
   * OR works digit by digit: shifting both operands left by k and filling the
   * low k bits of one of them shifts the OR and fills the same bits.
   */
  lemma {:induction false} OrShift(ah: nat, bh: nat, bl: nat, k: nat)
    requires bl < Pow2(k)
    ensures Shl(ah, k) >= 0 && Shl(bh, k) >= 0
    ensures Or(Shl(ah, k), Shl(bh, k) + bl) == Shl(Or(ah, bh), k) + bl
    decreases k
  {
    ShlNonneg(ah, k);
    ShlNonneg(bh, k);
    ShlNonneg(Or(ah, bh), k);
    if k > 0 {
      OrShift(ah, bh, bl / 2, k - 1);
      var a, b := Shl(ah, k), Shl(bh, k) + bl;
      if a == 0 {
        ShlZero(ah, k);
      } else if b == 0 {
        ShlZero(bh, k);
      } else {
        assert a / 2 == Shl(ah, k - 1) && a % 2 == 0;
        assert b / 2 == Shl(bh, k - 1) + bl / 2 && b % 2 == bl % 2;
      }
    }
  }

  lemma {:induction false} ShlNonneg(x: nat, k: nat)
    ensures Shl(x, k) >= 0
    decreases k
  {
    if k > 0 {
      ShlNonneg(x, k - 1);
    }
  }

  lemma {:induction false} ShlZero(x: nat, k: nat)
    ensures Shl(x, k) == 0 <==> x == 0
    decreases k
  {
    if k > 0 {
      ShlZero(x, k - 1);
      ShlNonneg(x, k - 1);
    }
  }

  /** OR with k one-bits covers any k-bit number. */
  lemma {:induction false} OrOnes(x: nat, k: nat)
    requires x < Pow2(k)
    ensures Or(x, Pow2(k) - 1) == Pow2(k) - 1
    decreases k
  {
    if k > 0 && x > 0 {
      OrOnes(x / 2, k - 1);
      if Pow2(k - 1) == 1 {
        assert x == 1;
      }
    }
  }

  /** A log word's tag: `word >> 24`. */
  function Tag(w: U32): U8
  {
    w / TagUnit
  }

  /** A log word's value: `word & 0xffff` stored into an `int16_t`. */
  function Low(w: U32): I16
  {
    Wrap16(w % HalfUnit)
  }

  /** Bit 16, clear in every word the store writes and set in erased flash (0xffffffff). */
  predicate Blank(w: U32)
  {
    (w / HalfUnit) % 2 == 1
  }

  /** A fresh log word, `(tag << 24) | (value & 0xffff)`. */
  function Pack(tag: U8, v: I16): (w: U32)
    ensures Tag(w) == tag && Low(w) == v && !Blank(w)
  {
    Pow2Fields();
    OrShift(tag, 0, ToU16(v), 24);
    ShlIsProduct(tag, 24);
    ShlIsProduct(0, 24);
    var w := Or(Shl(tag, 24), ToU16(v));
    ModUnique(w, TagUnit, tag, ToU16(v));
    ModUnique(w, HalfUnit, tag * 0x100, ToU16(v));
    ModUnique(tag * 0x100, 2, tag * 0x80, 0);
    LowWrap(v);
    w
  }

  /** The low half of an `int16_t`, read back as an `int16_t`, is the value. */
  lemma LowWrap(v: I16)
    ensures Wrap16(ToU16(v)) == v
  {
    if v < 0 {
      ModUnique(v, HalfUnit, -1, v + HalfUnit);
      ModUnique(v + HalfUnit + 0x8000, HalfUnit, 1, v + 0x8000);
    } else {
      ModUnique(v + 0x8000, HalfUnit, 0, v + 0x8000);
    }
  }

  /** `word & 0xff000000`: the tag byte kept in place. */
  function TopByte(w: U32): nat
  {
    ShlNonneg(Tag(w), 24);
    Shl(Tag(w), 24)
  }

  /**
   * The in-place update of a buffered word as evidently intended: the tag
   * byte kept and the low half replaced, masked like a fresh word.
   */
  function Update(w: U32, v: I16): (r: U32)
    ensures r == Pack(Tag(w), v)
  {
    Pow2Fields();
    OrShift(Tag(w), 0, ToU16(v), 24);
    ShlIsProduct(0, 24);
    ShlIsProduct(Tag(w), 24);
    Or(TopByte(w), ToU16(v))
  }

  /**
   * The in-place update as written (nvs.c:123): the `int16_t` value is ORed
   * in unmasked, so a negative one arrives sign-extended to 32 bits.
   */
  function UpdateAsWritten(w: U32, v: I16): (r: U32)
    ensures v >= 0 ==> r == Pack(Tag(w), v)
    ensures v < 0 ==> r == ToU32(v)
  {
    OrUnmasked(w, v);
    Or(TopByte(w), ToU32(v))
  }

  /** The OR of nvs.c:123 by cases on the sign: a plain pack, or the sign extension swallowing the tag byte. */
  lemma OrUnmasked(w: U32, v: I16)
    ensures v >= 0 ==> Or(TopByte(w), ToU32(v)) == Pack(Tag(w), v)
    ensures v < 0 ==> Or(TopByte(w), ToU32(v)) == ToU32(v)
  {
    if v >= 0 {
      OrNonneg(w, v);
    } else {
      OrNegative(w, v);
    }
  }

  /** OrUnmasked for a non-negative value: the OR is a plain pack. */
  lemma OrNonneg(w: U32, v: I16)
    requires v >= 0
    ensures Or(TopByte(w), ToU32(v)) == Pack(Tag(w), v)
  {
    var lo := ToU16(v);
    Pow2Fields();
    OrShift(Tag(w), 0, lo, 24);
    ShlIsProduct(0, 24);
    ModUnique(v, HalfUnit, 0, v);
    ModUnique(v, 0x1_0000_0000, 0, v);
  }

  /** OrUnmasked for a negative value: the sign extension swallows the tag byte. */
  lemma OrNegative(w: U32, v: I16)
    requires v < 0
    ensures Or(TopByte(w), ToU32(v)) == ToU32(v)
  {
    var lo := ToU16(v);
    Pow2Fields();
    var t := Tag(w) * 0x100;
    ShlIsProduct(Tag(w), 24);
    ShlIsProduct(t, 16);
    ShlIsProduct(0xFFFF, 16);
    ModUnique(v, HalfUnit, -1, v + HalfUnit);
    ModUnique(v, 0x1_0000_0000, -1, v + 0x1_0000_0000);
    OrShift(t, 0xFFFF, lo, 16);
    OrOnes(t, 16);
  }

  /** A negative value written through the as-written update loses the tag (it reads as 255) and sets bit 16. */
  lemma NegativeUpdateCorrupts(w: U32, v: I16)
    requires v < 0
    ensures Tag(UpdateAsWritten(w, v)) == 0xFF && Blank(UpdateAsWritten(w, v))
    ensures Low(UpdateAsWritten(w, v)) == v
  {
    var r := UpdateAsWritten(w, v);
    assert r == v + 0x1_0000_0000;
    ModUnique(r, TagUnit, 0xFF, r - 0xFF00_0000);
    ModUnique(r, HalfUnit, 0xFFFF, v + HalfUnit);
    ModUnique(0xFFFF, 2, 0x7FFF, 1);
    LowWrap(v);
    ModUnique(v, HalfUnit, -1, v + HalfUnit);
  }

  // ---------------------------------------------------------------------
  // The RAM buffer

  /** The first buffered word carrying `tag`, as the search loop of nvs_put_tag finds it. */
  function Find(buf: seq<U32>, tag: U8): (r: Option<nat>)
    ensures r.Some? ==> r.value < |buf| && Tag(buf[r.value]) == tag
    ensures r.Some? ==> forall i :: 0 <= i < r.value ==> Tag(buf[i]) != tag
    ensures r.None? <==> forall i :: 0 <= i < |buf| ==> Tag(buf[i]) != tag
  {
    FindFrom(buf, tag, 0)
  }

  function FindFrom(buf: seq<U32>, tag: U8, i: nat): (r: Option<nat>)
    requires i <= |buf|
    ensures r.Some? ==> i <= r.value < |buf| && Tag(buf[r.value]) == tag
    ensures r.Some? ==> forall j :: i <= j < r.value ==> Tag(buf[j]) != tag
    ensures r.None? <==> forall j :: i <= j < |buf| ==> Tag(buf[j]) != tag
    decreases |buf| - i
  {
    if i == |buf| then None
    else if Tag(buf[i]) == tag then Some(i)
    else FindFrom(buf, tag, i + 1)
  }

  /** No two buffered words carry the same tag. */
  predicate Distinct(buf: seq<U32>)
  {
    forall i, j :: 0 <= i < j < |buf| ==> Tag(buf[i]) != Tag(buf[j])
  }

  /** No buffered word has bit 16 set, so none would read as erased flash once committed. */
  predicate Clean(buf: seq<U32>)
  {
    forall i :: 0 <= i < |buf| ==> !Blank(buf[i])
  }

  /**
   * nvs_put_tag with the update evidently intended: the word of a buffered
   * tag is rewritten in place, and a new tag is appended.
   */
  function PutTag(buf: seq<U32>, tag: U8, v: I16): (r: seq<U32>)
    ensures Find(buf, tag).Some? ==> |r| == |buf| && r[Find(buf, tag).value] == Pack(tag, v)
    ensures Find(buf, tag).None? ==> r == buf + [Pack(tag, v)]
    ensures forall i :: 0 <= i < |buf| && Tag(buf[i]) != tag ==> r[i] == buf[i]
  {
    match Find(buf, tag)
    case Some(i) => buf[i := Update(buf[i], v)]
    case None => buf + [Pack(tag, v)]
  }

  /** nvs_put_tag as written (nvs.c:118-129): the in-place update ORs the value in unmasked. */
  function PutTagAsWritten(buf: seq<U32>, tag: U8, v: I16): (r: seq<U32>)
    ensures v >= 0 ==> r == PutTag(buf, tag, v)
    ensures Find(buf, tag).Some? && v < 0 ==> r == buf[Find(buf, tag).value := ToU32(v)]
  {
    match Find(buf, tag)
    case Some(i) => buf[i := UpdateAsWritten(buf[i], v)]
    case None => buf + [Pack(tag, v)]
  }

  /** After a put the buffer holds the value just put for that tag, in one word. */
  lemma PutFinds(buf: seq<U32>, tag: U8, v: I16)
    ensures Find(PutTag(buf, tag, v), tag).Some?
    ensures Low(PutTag(buf, tag, v)[Find(PutTag(buf, tag, v), tag).value]) == v
  {
    var r := PutTag(buf, tag, v);
    match Find(buf, tag)
    case Some(i) =>
      assert Tag(r[i]) == tag;
      assert Find(r, tag).Some?;
      assert Find(r, tag).value == i;
    case None =>
      assert Tag(r[|buf|]) == tag;
      assert Find(r, tag).Some?;
  }

  /** A put leaves the buffered word of every other tag where and as it was. */
  lemma PutOther(buf: seq<U32>, tag: U8, v: I16, t: U8)
    requires t != tag
    ensures Find(PutTag(buf, tag, v), t) == Find(buf, t)
  {
    var r := PutTag(buf, tag, v);
    assert forall i :: 0 <= i < |buf| ==> (Tag(r[i]) == t <==> Tag(buf[i]) == t);
    if Find(buf, tag).None? {
      assert Tag(r[|buf|]) == tag;
    }
    if Find(r, t).Some? {
      assert Find(r, t).value < |buf|;
      assert Find(buf, t).Some?;
    }
  }

  /** Puts keep the buffered tags distinct and the buffered words clean. */
  lemma PutKeeps(buf: seq<U32>, tag: U8, v: I16)
    requires Distinct(buf) && Clean(buf)
    ensures Distinct(PutTag(buf, tag, v)) && Clean(PutTag(buf, tag, v))
  {
    var r := PutTag(buf, tag, v);
    assert forall i :: 0 <= i < |buf| ==> Tag(r[i]) == Tag(buf[i]);
  }

  /** The tags of a buffer. */
  function Tags(buf: seq<U32>): (ts: set<U8>)
    ensures forall i :: 0 <= i < |buf| ==> Tag(buf[i]) in ts
    ensures forall t :: t in ts ==> exists i :: 0 <= i < |buf| && Tag(buf[i]) == t
    decreases |buf|
  {
    if buf == [] then {}
    else
      var init := Tags(buf[..|buf| - 1]);
      assert forall t :: t in init ==> exists i :: 0 <= i < |buf| - 1 && Tag(buf[i]) == t by {
        forall t | t in init
          ensures exists i :: 0 <= i < |buf| - 1 && Tag(buf[i]) == t
        {
          var i :| 0 <= i < |buf| - 1 && Tag(buf[..|buf| - 1][i]) == t;
        }
      }
      init + {Tag(buf[|buf| - 1])}
  }

  lemma {:induction false} TagsCount(buf: seq<U32>)
    requires Distinct(buf)
    ensures |Tags(buf)| == |buf|
    decreases |buf|
  {
    if buf != [] {
      var init := buf[..|buf| - 1];
      TagsCount(init);
      assert Tag(buf[|buf| - 1]) !in Tags(init);
    }
  }

  /** The numbers below n. */
  function Below(n: nat): (s: set<int>)
    ensures forall x :: x in s <==> 0 <= x < n
    ensures |s| == n
  {
    if n == 0 then {} else Below(n - 1) + {n - 1}
  }

  /**
   * With distinct tags the buffer holds at most 256 words, which is exactly
   * the 1024 bytes allocated for it: the corrected put never overruns it.
   */
  lemma DistinctFits(buf: seq<U32>)
    requires Distinct(buf)
    ensures |buf| <= BufWords
  {
    TagsCount(buf);
    SubsetCount(Tags(buf), Below(0x100));
  }

  lemma SubsetCount(a: set<int>, b: set<int>)
    requires a <= b
    ensures |a| <= |b|
  {
    assert b == a + (b - a);
    assert a * (b - a) == {};
  }

  /**
   * A negative put on a buffered tag replaces its word by the sign-extended
   * value: the word now carries tag 255 and bit 16, and in a buffer of
   * distinct tags the tag put is no longer found at all.
   */
  lemma NegativePutLosesTag(buf: seq<U32>, tag: U8, v: I16)
    requires Find(buf, tag).Some? && v < 0 && tag != 0xFF && Distinct(buf)
    ensures Find(PutTagAsWritten(buf, tag, v), tag).None?
    ensures !Clean(PutTagAsWritten(buf, tag, v))
  {
    var i := Find(buf, tag).value;
    var r := PutTagAsWritten(buf, tag, v);
    NegativeUpdateCorrupts(buf[i], v);
    assert r[i] == UpdateAsWritten(buf[i], v);
    assert forall j :: 0 <= j < |buf| && j != i ==> r[j] == buf[j] && Tag(buf[j]) != tag;
  }

  /**
   * The defect from an empty buffer, for any tag below 255 (tag 5 say), a
   * first value v >= 0 (1 say) and a second w < 0 (-1 say): the buffer is the
   * single word `(uint32_t)w` (0xffffffff for -1), the tag is gone, and
   * repeating the two puts leaves two words with tag 255, so the tags are no
   * longer distinct and the buffer grows by a word every two puts, past its
   * 256 words.
   */
  lemma SignExtensionLosesTag(tag: U8, v: I16, w: I16)
    requires tag != 0xFF && v >= 0 && w < 0
    ensures PutTagAsWritten(PutTagAsWritten([], tag, v), tag, w) == [ToU32(w)]
    ensures Find([ToU32(w)], tag).None? && Blank(ToU32(w))
  {
    var b1 := PutTagAsWritten([], tag, v);
    assert b1 == [Pack(tag, v)];
    assert Find(b1, tag) == Some(0);
    NegativeUpdateCorrupts(Pack(tag, v), w);
  }

  /** Repeating the two puts of SignExtensionLosesTag leaves two words with tag 255. */
  lemma SignExtensionDuplicates(tag: U8, v: I16, w: I16)
    requires tag != 0xFF && v >= 0 && w < 0
    ensures PutTagAsWritten(PutTagAsWritten([ToU32(w)], tag, v), tag, w) == [ToU32(w), ToU32(w)]
    ensures !Distinct([ToU32(w), ToU32(w)])
  {
    NegativeUpdateCorrupts(Pack(tag, v), w);
    var x := ToU32(w);
    assert Tag(x) == 0xFF;
    var b3 := PutTagAsWritten([x], tag, v);
    assert Find([x], tag).None?;
    assert b3 == [x, Pack(tag, v)];
    assert Tag(b3[0]) != tag && Tag(b3[1]) == tag;
    assert Find(b3, tag) == Some(1);
    assert Tag([x, x][0]) == Tag([x, x][1]);
  }

  // ---------------------------------------------------------------------
  // The flash log

  /** `end` is where the log ends: no word before it has bit 16 set, and the word at it (if any) has. */
  predicate IsEnd(log: seq<U32>, end: nat)
  {
    && end <= |log|
    && (forall j :: 0 <= j < end ==> !Blank(log[j]))
    && (end < |log| ==> Blank(log[end]))
  }

  /** The end-of-log scan of nvs_init (nvs.c:58-64): the first word of the region with bit 16 set. */
  method ScanEnd(log: seq<U32>) returns (end: nat)
    requires |log| == LogWords
    ensures IsEnd(log, end)
  {
    end := 0;
    while end < |log|
      invariant end <= |log|
      invariant forall j :: 0 <= j < end ==> !Blank(log[j])
    {
      if Blank(log[end]) {
        return;
      }
      end := end + 1;
    }
  }

  /** The end of a log is unique. */
  lemma EndUnique(log: seq<U32>, e1: nat, e2: nat)
    requires IsEnd(log, e1) && IsEnd(log, e2)
    ensures e1 == e2
  {
    assert e1 < |log| ==> Blank(log[e1]);
    assert e2 < |log| ==> Blank(log[e2]);
  }

  /** The highest-addressed word below `end` that carries `tag`. */
  function Latest(log: seq<U32>, end: nat, tag: U8): (r: Option<nat>)
    requires end <= |log|
    ensures r.Some? ==> r.value < end && Tag(log[r.value]) == tag
    ensures r.Some? ==> forall k :: r.value < k < end ==> Tag(log[k]) != tag
    ensures r.None? <==> forall k :: 0 <= k < end ==> Tag(log[k]) != tag
  {
    if end == 0 then None
    else if Tag(log[end - 1]) == tag then Some(end - 1)
    else Latest(log, end - 1, tag)
  }

  /**
   * nvs_get_tag (nvs.c:90-108): scan backwards from the word before the end;
   * on the first word with the tag, return 0 and its low half, else return 1
   * and leave the caller's value as it was.
   */
  method GetTag(log: seq<U32>, end: nat, tag: U8, value0: I16) returns (result: U8, value: I16)
    requires end <= |log|
    ensures Latest(log, end, tag).Some? ==> result == 0 && value == Low(log[Latest(log, end, tag).value])
    ensures Latest(log, end, tag).None? ==> result == 1 && value == value0
  {
    result, value := 1, value0;
    var entry: int := end - 1;
    while entry >= 0
      invariant -1 <= entry < end
      invariant Latest(log, end, tag) == Latest(log, entry + 1, tag)
    {
      if Tag(log[entry]) == tag {
        result, value := 0, Low(log[entry]);
        return;
      }
      entry := entry - 1;
    }
  }

  /** Words below `end` that agree give the same lookup. */
  lemma {:induction false} LatestAgree(log1: seq<U32>, log2: seq<U32>, end: nat, tag: U8)
    requires end <= |log1| && end <= |log2|
    requires forall k :: 0 <= k < end ==> log1[k] == log2[k]
    ensures Latest(log1, end, tag) == Latest(log2, end, tag)
    decreases end
  {
    if end > 0 {
      LatestAgree(log1, log2, end - 1, tag);
    }
  }

  /** Words without the tag between lo and end are skipped. */
  lemma {:induction false} LatestSkip(log: seq<U32>, lo: nat, end: nat, tag: U8)
    requires lo <= end <= |log|
    requires forall k :: lo <= k < end ==> Tag(log[k]) != tag
    ensures Latest(log, end, tag) == Latest(log, lo, tag)
    decreases end
  {
    if end > lo {
      LatestSkip(log, lo, end - 1, tag);
    }
  }

  // ---------------------------------------------------------------------
  // Commit

  /** The store: the flash region, the log end `nvs_end` (as a word index) and the buffer. */
  datatype Store = Store(log: seq<U32>, end: nat, buf: seq<U32>)

  predicate Valid(s: Store)
  {
    |s.log| == LogWords && s.end <= LogWords
  }

  /** nvs_init's state: the end found by the scan and an empty buffer. */
  method Init(log: seq<U32>) returns (s: Store)
    requires |log| == LogWords
    ensures Valid(s) && IsEnd(s.log, s.end) && s.buf == [] && s.log == log
  {
    var end := ScanEnd(log);
    s := Store(log, end, []);
  }

  /** One step of the commit's inner loop: the last buffered word goes to the log end. */
  function Push(s: Store): (r: Store)
    requires Valid(s) && s.buf != [] && s.end < LogWords
    ensures Valid(r)
  {
    Store(s.log[s.end := s.buf[|s.buf| - 1]], s.end + 1, s.buf[..|s.buf| - 1])
  }

  /** k steps of the inner loop. */
  function Pushed(s: Store, k: nat): (r: Store)
    requires Valid(s) && k <= |s.buf| && s.end + k <= LogWords
    ensures Valid(r) && r.end == s.end + k && r.buf == s.buf[..|s.buf| - k]
    decreases k
  {
    if k == 0 then s else Push(Pushed(s, k - 1))
  }

  /**
   * k steps of the inner loop write the last k buffered words, newest first,
   * from the log end on, and leave every other word of the region alone.
   */
  lemma {:induction false} PushedLog(s: Store, k: nat)
    requires Valid(s) && k <= |s.buf| && s.end + k <= LogWords
    ensures forall i :: s.end <= i < s.end + k ==> Pushed(s, k).log[i] == s.buf[|s.buf| + s.end - 1 - i]
    ensures forall i :: 0 <= i < LogWords && !(s.end <= i < s.end + k) ==> Pushed(s, k).log[i] == s.log[i]
    decreases k
  {
    if k > 0 {
      PushedLog(s, k - 1);
    }
  }

  lemma {:induction false} PushedAdd(s: Store, k: nat)
    requires Valid(s) && k < |s.buf| && s.end + k < LogWords
    ensures Push(Pushed(s, k)) == Pushed(s, k + 1)
  {
  }

  /**
   * The inner loop of the non-full branch (nvs.c:162-171): starting at word
   * `idx` of the current write page, move buffered words to the log until the
   * buffer is empty or the page is full.
   */
  function FillPage(s: Store, idx: nat): (r: Store)
    requires Valid(s) && idx <= PageWords && s.end + (PageWords - idx) <= LogWords
    ensures r == Pushed(s, Min(|s.buf|, PageWords - idx))
    decreases PageWords - idx
  {
    if s.buf == [] || idx == PageWords then s
    else
      var r := FillPage(Push(s), idx + 1);
      PushedShift(s, Min(|s.buf|, PageWords - idx));
      r
  }

  /** Pushing once and then k - 1 more times is pushing k times. */
  lemma {:induction false} PushedShift(s: Store, k: nat)
    requires Valid(s) && 1 <= k <= |s.buf| && s.end + k <= LogWords
    ensures Pushed(Push(s), k - 1) == Pushed(s, k)
    decreases k
  {
    if k > 1 {
      PushedShift(s, k - 1);
    }
  }

  /** A page boundary is a multiple of 64 words, and the region holds whole pages. */
  lemma PageFits(end: nat)
    requires end < LogWords
    ensures end + (PageWords - end % PageWords) <= LogWords
  {
    var q, r := end / 64, end % 64;
    assert end == q * 64 + r;
    assert q <= 127;
  }

  /** How a commit ended: buffer drained, or flash full with the reset branch (not modelled) next. */
  datatype Outcome = Done(s: Store) | Full(s: Store)

  /** The commit loop's non-full branch, one write page per round, until the buffer is empty or the region is full. */
  function Commit(s: Store): (r: Outcome)
    requires Valid(s)
    ensures Valid(r.s)
    // words only move from the buffer to the log, oldest last
    ensures r.s.end >= s.end && r.s.end + |r.s.buf| == s.end + |s.buf|
    ensures r.s.buf == s.buf[..|r.s.buf|]
    // the loop stops with the buffer empty, or on a full region
    ensures r.Done? <==> r.s.buf == []
    ensures r.Full? ==> r.s.end == LogWords
    decreases |s.buf|
  {
    if s.buf == [] then Done(s)
    else if s.end == LogWords then Full(s)
    else
      PageFits(s.end);
      Commit(FillPage(s, s.end % PageWords))
  }

  /**
   * A commit that fits drains the buffer: the log gains the buffered words,
   * newest first, right at its end, and nothing else in the region changes.
   */
  lemma {:induction false} CommitDrains(s: Store)
    requires Valid(s) && s.end + |s.buf| <= LogWords
    ensures Commit(s) == Done(Pushed(s, |s.buf|))
    decreases |s.buf|
  {
    if s.buf != [] {
      var k := Min(|s.buf|, PageWords - s.end % PageWords);
      var t := Pushed(s, k);
      assert |t.buf| == |s.buf| - k && t.end + |t.buf| <= LogWords;
      CommitDrains(t);
      DrainStep(s, k);
    }
  }

  /** A commit drains the buffer if it does so after its first round. */
  lemma DrainStep(s: Store, k: nat)
    requires Valid(s) && s.buf != [] && s.end + |s.buf| <= LogWords
    requires k == Min(|s.buf|, PageWords - s.end % PageWords)
    requires Commit(Pushed(s, k)) == Done(Pushed(Pushed(s, k), |s.buf| - k))
    ensures Commit(s) == Done(Pushed(s, |s.buf|))
  {
    CommitStep(s);
    PushedChain(s, k, |s.buf| - k, |s.buf|);
  }

  /** One round of the commit loop fills the rest of the current write page. */
  lemma CommitStep(s: Store)
    requires Valid(s) && s.buf != [] && s.end + |s.buf| <= LogWords
    ensures var k := Min(|s.buf|, PageWords - s.end % PageWords);
      1 <= k && Commit(s) == Commit(Pushed(s, k))
  {
    PageFits(s.end);
  }

  /** k pushes then j more are k + j pushes. */
  lemma {:induction false} PushedChain(s: Store, k: nat, j: nat, m: nat)
    requires Valid(s) && m == k + j && m <= |s.buf| && s.end + m <= LogWords
    ensures Pushed(Pushed(s, k), j) == Pushed(s, m)
    decreases j
  {
    if j > 0 {
      PushedChain(s, k, j - 1, m - 1);
      var t := Pushed(s, k);
      assert Pushed(t, j) == Push(Pushed(t, j - 1));
      assert Pushed(s, m) == Push(Pushed(s, m - 1));
    }
  }

  /** What nvs_get_tag reports: the value of the latest word with the tag, if there is one. */
  function Lookup(log: seq<U32>, end: nat, tag: U8): (r: Option<I16>)
    requires end <= |log|
    ensures r.None? <==> forall k :: 0 <= k < end ==> Tag(log[k]) != tag
  {
    match Latest(log, end, tag)
    case Some(j) => Some(Low(log[j]))
    case None => None
  }

  /**
   * The store's view of a tag: the first buffered word carrying it, or else
   * the latest log word. This is what a lookup sees once the buffer is
   * committed.
   */
  function View(s: Store, t: U8): Option<I16>
    requires Valid(s)
  {
    match Find(s.buf, t)
    case Some(i) => Some(Low(s.buf[i]))
    case None => Lookup(s.log, s.end, t)
  }

  /** The log a commit that fits leaves behind. */
  function Committed(s: Store): (r: Store)
    requires Valid(s) && s.end + |s.buf| <= LogWords
    ensures Commit(s) == Done(r)
    ensures r.buf == [] && r.end == s.end + |s.buf|
  {
    CommitDrains(s);
    Pushed(s, |s.buf|)
  }

  /** After a commit that fits, a lookup returns the store's view of every tag. */
  lemma CommitThenGet(s: Store, t: U8)
    requires Valid(s) && s.end + |s.buf| <= LogWords
    ensures Lookup(Committed(s).log, Committed(s).end, t) == View(s, t)
  {
    match Find(s.buf, t)
    case Some(i) =>
      CommitFound(s, t, i);
    case None =>
      CommitMissing(s, t);
  }

  /** A buffered tag reads back as its first buffered word, the last one the commit writes. */
  lemma CommitFound(s: Store, t: U8, i: nat)
    requires Valid(s) && s.end + |s.buf| <= LogWords && Find(s.buf, t) == Some(i)
    ensures Lookup(Committed(s).log, Committed(s).end, t) == Some(Low(s.buf[i]))
  {
    PushedFound(s, t, i);
  }

  /** CommitFound on the drained store itself. */
  lemma PushedFound(s: Store, t: U8, i: nat)
    requires Valid(s) && s.end + |s.buf| <= LogWords && Find(s.buf, t) == Some(i)
    ensures Lookup(Pushed(s, |s.buf|).log, Pushed(s, |s.buf|).end, t) == Some(Low(s.buf[i]))
  {
    var n := |s.buf|;
    var r := Pushed(s, n);
    PushedLog(s, n);
    var p := s.end + n - 1 - i;
    assert forall k :: p < k < r.end ==> r.log[k] == s.buf[n + s.end - 1 - k];
    LatestSkip(r.log, p + 1, r.end, t);
    assert r.log[p] == s.buf[i];
  }

  /** A tag that is not buffered reads back as it did before the commit. */
  lemma CommitMissing(s: Store, t: U8)
    requires Valid(s) && s.end + |s.buf| <= LogWords && Find(s.buf, t).None?
    ensures Lookup(Committed(s).log, Committed(s).end, t) == Lookup(s.log, s.end, t)
  {
    var n := |s.buf|;
    var r := Pushed(s, n);
    PushedLog(s, n);
    LatestSkip(r.log, s.end, r.end, t);
    LatestAgree(r.log, s.log, s.end, t);
  }

  /** Put, then commit, then get: the value last put for a tag is what a lookup returns. */
  lemma PutCommitGet(s: Store, t: U8, v: I16)
    requires Valid(s) && s.end + |s.buf| + 1 <= LogWords
    ensures var r := Committed(s.(buf := PutTag(s.buf, t, v)));
      Lookup(r.log, r.end, t) == Some(v)
  {
    var s' := s.(buf := PutTag(s.buf, t, v));
    PutFinds(s.buf, t, v);
    CommitThenGet(s', t);
  }

  /** A put changes the view of no other tag. */
  lemma PutKeepsView(s: Store, t: U8, v: I16, other: U8)
    requires Valid(s) && other != t
    ensures View(s.(buf := PutTag(s.buf, t, v)), other) == View(s, other)
  {
    PutOther(s.buf, t, v, other);
    if Find(s.buf, other).Some? {
      assert PutTag(s.buf, t, v)[Find(s.buf, other).value] == s.buf[Find(s.buf, other).value];
    }
  }

  /** Put, then commit, then get: every other tag reads as it would have without the put. */
  lemma PutCommitOther(s: Store, t: U8, v: I16, other: U8)
    requires Valid(s) && s.end + |s.buf| + 1 <= LogWords && other != t
    ensures var r := Committed(s.(buf := PutTag(s.buf, t, v)));
      Lookup(r.log, r.end, other) == Lookup(Committed(s).log, Committed(s).end, other)
  {
    PutKeepsView(s, t, v, other);
    CommitThenGet(s.(buf := PutTag(s.buf, t, v)), other);
    CommitThenGet(s, other);
  }

  // ---------------------------------------------------------------------
  // Programming a write page

  /** nvs.c:12-19: the flash is 2 MiB, mapped from 0x10000000, and the store is its last 32 KiB. */
  const FlashStart := 0x1000_0000
  const FlashEnd := 0x1020_0000
  const NvsStart := 0x101F_8000

  /** The word counts and addresses above follow from the byte sizes of nvs.c:12-19. */
  lemma Geometry()
    ensures LogWords == MaxPgs * EraseBytes / 4 && PageWords == WriteBytes / 4 && BufWords == MaxMem / 4
    ensures FlashEnd == FlashStart + 2 * 0x10_0000 && NvsStart == FlashEnd - MaxPgs * EraseBytes
  {
  }

  /** An erased word: every bit set. */
  const ErasedWord := 0xFFFF_FFFF

  /** Bitwise AND of two non-negative integers. */
  function And(a: nat, b: nat): (r: nat)
    ensures r <= a && r <= b
    decreases a
  {
    if a == 0 || b == 0 then 0
    else 2 * And(a / 2, b / 2) + (if a % 2 == 1 && b % 2 == 1 then 1 else 0)
  }

  /** Writing a word's own contents over it leaves it as it was. */
  lemma {:induction false} AndSelf(a: nat)
    ensures And(a, a) == a
    decreases a
  {
    if a > 0 {
      AndSelf(a / 2);
    }
  }

  /** AND with k one-bits keeps any k-bit number. */
  lemma {:induction false} AndOnes(x: nat, k: nat)
    requires x < Pow2(k)
    ensures And(Pow2(k) - 1, x) == x && And(x, Pow2(k) - 1) == x
    decreases k
  {
    if k > 0 && x > 0 {
      AndOnes(x / 2, k - 1);
    }
  }

  /** Programming an erased word stores what is written; writing all ones over a word keeps it. */
  lemma AndErased(x: U32)
    ensures And(ErasedWord, x) == x && And(x, ErasedWord) == x
  {
    Pow2Fields();
    Pow2Mul(16, 16);
    AndOnes(x, 32);
  }

  /**
   * flash_range_program over the write page at word p: flash programming
   * only clears bits, so each word of the page ends up as the AND of what it
   * held and what is written, and no word outside the page changes.
   */
  function Program(log: seq<U32>, p: nat, img: seq<U32>): (r: seq<U32>)
    requires p + |img| <= |log|
    ensures |r| == |log|
    ensures forall i :: 0 <= i < |log| && !(p <= i < p + |img|) ==> r[i] == log[i]
    ensures forall j :: 0 <= j < |img| ==> r[p + j] == And(log[p + j], img[j])
  {
    seq(|log|, i requires 0 <= i < |log| => if p <= i < p + |img| then And(log[i], img[i - p]) else log[i])
  }

  /**
   * The page buffer a commit round programs (nvs.c:162-175): the words it
   * was loaded with, overwritten from word `idx` on by the buffered words,
   * newest first, until the buffer or the page runs out.
   */
  function PageImage(base: seq<U32>, buf: seq<U32>, idx: nat): (img: seq<U32>)
    requires |base| == PageWords && idx <= PageWords
    ensures |img| == PageWords
    ensures forall j :: 0 <= j < PageWords && !(idx <= j < idx + |buf|) ==> img[j] == base[j]
    ensures forall j :: idx <= j < PageWords && j < idx + |buf| ==> img[j] == buf[|buf| - 1 - (j - idx)]
  {
    seq(PageWords, j requires 0 <= j < PageWords =>
      if idx <= j < idx + |buf| then buf[|buf| - 1 - (j - idx)] else base[j])
  }

  /** The first word of the write page that holds word `end`. */
  function PageStart(end: nat): (p: nat)
    requires end < LogWords
    ensures p <= end < p + PageWords <= LogWords && p % PageWords == 0
  {
    ModUnique(end - end % PageWords, PageWords, end / PageWords, 0);
    PageFits(end);
    end - end % PageWords
  }

  /** Every word from `end` on is erased, as the sector erase leaves them. */
  predicate ErasedFrom(log: seq<U32>, end: nat)
  {
    forall i :: end <= i < |log| ==> log[i] == ErasedWord
  }

  /**
   * One round of the commit loop's non-full branch (nvs.c:162-175) with the
   * page buffer loaded as `base`: the buffered words go in from the log end's
   * offset in its page, and the buffer is programmed over that page.
   */
  function RoundFrom(s: Store, base: seq<U32>): (log: seq<U32>)
    requires Valid(s) && s.end < LogWords && |base| == PageWords
    ensures |log| == LogWords
    // only the write page is programmed
    ensures forall i :: 0 <= i < LogWords && !(PageStart(s.end) <= i < PageStart(s.end) + PageWords) ==> log[i] == s.log[i]
  {
    var p := PageStart(s.end);
    Program(s.log, p, PageImage(base, s.buf, s.end - p))
  }

  /**
   * The intended round: the page buffer is loaded from the write page
   * itself, so the words already in the log before its end stay as they are.
   */
  function Round(s: Store): (log: seq<U32>)
    requires Valid(s) && s.end < LogWords
    ensures |log| == LogWords
    ensures forall i :: 0 <= i < LogWords && !(PageStart(s.end) <= i < PageStart(s.end) + PageWords) ==> log[i] == s.log[i]
    ensures forall i :: 0 <= i < s.end ==> log[i] == s.log[i]
  {
    AndSelfAll(s.log, PageStart(s.end), s.end);
    RoundFrom(s, s.log[PageStart(s.end)..PageStart(s.end) + PageWords])
  }

  /** Writing each word of a range over itself leaves it as it was. */
  lemma AndSelfAll(log: seq<U32>, lo: nat, hi: nat)
    requires lo <= hi <= |log|
    ensures forall i :: lo <= i < hi ==> And(log[i], log[i]) == log[i]
  {
    forall i | lo <= i < hi
      ensures And(log[i], log[i]) == log[i]
    {
      AndSelf(log[i]);
    }
  }

  /**
   * The round as nvs.c:153-175 has it: the page buffer is loaded from the
   * 64 words `stray` that the copy reads at NVS_START + pg_addr.
   */
  function RoundAsWritten(s: Store, stray: seq<U32>): (log: seq<U32>)
    requires Valid(s) && s.end < LogWords && |stray| == PageWords
    ensures |log| == LogWords
    ensures forall i :: 0 <= i < LogWords && !(PageStart(s.end) <= i < PageStart(s.end) + PageWords) ==> log[i] == s.log[i]
    // the words already in the log are programmed with the stray ones
    ensures forall i :: PageStart(s.end) <= i < s.end ==> log[i] == And(s.log[i], stray[i - PageStart(s.end)])
  {
    RoundFrom(s, stray)
  }

  /** pg_addr (nvs.c:153-155): the byte offset from the start of flash of the write page holding word `end`. */
  function PageAddr(end: nat): nat
  {
    var a := (NvsStart - FlashStart) + 4 * end;
    a - a % WriteBytes
  }

  /**
   * The page the round programs is the write page of the log end, at
   * FLASH_START + pg_addr; the copy at nvs.c:159 reads NVS_START + pg_addr,
   * which lies beyond the end of the 2 MiB flash.
   */
  lemma CopyAddress(end: nat)
    requires end < LogWords
    ensures PageAddr(end) == (NvsStart - FlashStart) + 4 * PageStart(end)
    ensures FlashStart + PageAddr(end) == NvsStart + 4 * PageStart(end)
    ensures NvsStart + PageAddr(end) >= FlashEnd
  {
    var q, r := end / 64, end % 64;
    assert end == q * 64 + r;
    assert PageStart(end) == end - r;
    assert NvsStart - FlashStart == 0x1F_8000 && WriteBytes == 256;
    var a := 0x1F_8000 + 4 * end;
    assert a == (0x1F80 + q) * 256 + 4 * r;
    ModUnique(a, 256, 0x1F80 + q, 4 * r);
  }

  /**
   * On an erased tail, the intended round programs exactly what one round
   * of the commit loop puts in the log: the words before the end are
   * rewritten with themselves, the flushed words land on erased words, and
   * the rest of the page is rewritten erased.
   */
  lemma RoundIntended(s: Store)
    requires Valid(s) && s.end < LogWords && ErasedFrom(s.log, s.end)
    ensures Round(s) == FillPage(s, s.end - PageStart(s.end)).log
  {
    var a, b := Round(s), FillPage(s, s.end - PageStart(s.end)).log;
    forall i | 0 <= i < LogWords
      ensures a[i] == b[i]
    {
      RoundWord(s, i);
    }
  }

  /** RoundIntended, one word at a time. */
  lemma RoundWord(s: Store, i: nat)
    requires Valid(s) && s.end < LogWords && i < LogWords && (s.end <= i ==> s.log[i] == ErasedWord)
    ensures Round(s)[i] == FillPage(s, s.end - PageStart(s.end)).log[i]
  {
    FillAt(s, i);
    RoundValue(s, i);
  }

  /** Word i after the intended round, on an erased tail. */
  lemma RoundValue(s: Store, i: nat)
    requires Valid(s) && s.end < LogWords && i < LogWords && (s.end <= i ==> s.log[i] == ErasedWord)
    ensures var p := PageStart(s.end);
      var k := Min(|s.buf|, p + PageWords - s.end);
      Round(s)[i] == if s.end <= i < s.end + k then s.buf[|s.buf| + s.end - 1 - i] else s.log[i]
  {
    var p := PageStart(s.end);
    RoundAt(s, s.log[p..p + PageWords], i);
    if p <= i < p + PageWords {
      if i < s.end {
        AndSelf(s.log[i]);
      } else if i < s.end + |s.buf| {
        AndErased(s.buf[|s.buf| + s.end - 1 - i]);
      } else {
        AndErased(ErasedWord);
      }
    }
  }

  /** Word i after a round that loaded `base`: the page's words are ANDed with the buffer's, the flushed words in place. */
  lemma RoundAt(s: Store, base: seq<U32>, i: nat)
    requires Valid(s) && s.end < LogWords && |base| == PageWords && i < LogWords
    ensures var p := PageStart(s.end);
      var r := RoundFrom(s, base);
      if p <= i < p + PageWords then
        r[i] == And(s.log[i], if s.end <= i < s.end + |s.buf| then s.buf[|s.buf| + s.end - 1 - i] else base[i - p])
      else r[i] == s.log[i]
  {
    var p := PageStart(s.end);
    if p <= i < p + PageWords {
      var img := PageImage(base, s.buf, s.end - p);
      var j := i - p;
      var w := if s.end <= i < s.end + |s.buf| then s.buf[|s.buf| + s.end - 1 - i] else base[j];
      assert img[j] == w;
      assert Program(s.log, p, img)[p + j] == And(s.log[p + j], img[j]);
      assert p + j == i;
    }
  }

  /** Word i after one round of the commit loop's page fill. */
  lemma FillAt(s: Store, i: nat)
    requires Valid(s) && s.end < LogWords && i < LogWords
    ensures var p := PageStart(s.end);
      var k := Min(|s.buf|, p + PageWords - s.end);
      FillPage(s, s.end - p).log[i] == if s.end <= i < s.end + k then s.buf[|s.buf| + s.end - 1 - i] else s.log[i]
  {
    var p := PageStart(s.end);
    var k := Min(|s.buf|, p + PageWords - s.end);
    assert PageWords - (s.end - p) == p + PageWords - s.end;
    assert FillPage(s, s.end - p) == Pushed(s, k);
    if s.end <= i < s.end + k {
      assert Pushed(s, k).log[i] == s.buf[|s.buf| + s.end - 1 - i] by {
        PushedLog(s, k);
      }
    } else {
      assert Pushed(s, k).log[i] == s.log[i] by {
        PushedLog(s, k);
      }
    }
  }

  /** When the stray words happen to be erased, the round as written is the intended one. */
  lemma StrayErasedHarmless(s: Store, stray: seq<U32>)
    requires Valid(s) && s.end < LogWords && ErasedFrom(s.log, s.end)
    requires |stray| == PageWords && forall j :: 0 <= j < PageWords ==> stray[j] == ErasedWord
    ensures RoundAsWritten(s, stray) == Round(s)
  {
    var a, b := RoundAsWritten(s, stray), Round(s);
    forall i | 0 <= i < LogWords
      ensures a[i] == b[i]
    {
      StrayWord(s, stray, i);
    }
  }

  /** StrayErasedHarmless, one word at a time. */
  lemma StrayWord(s: Store, stray: seq<U32>, i: nat)
    requires Valid(s) && s.end < LogWords && i < LogWords && (s.end <= i ==> s.log[i] == ErasedWord)
    requires |stray| == PageWords && forall j :: 0 <= j < PageWords ==> stray[j] == ErasedWord
    ensures RoundAsWritten(s, stray)[i] == Round(s)[i]
  {
    var p := PageStart(s.end);
    RoundAt(s, stray, i);
    RoundValue(s, i);
    if p <= i < p + PageWords {
      if i < s.end {
        AndErased(s.log[i]);
      } else if i < s.end + |s.buf| {
        AndErased(s.buf[|s.buf| + s.end - 1 - i]);
      } else {
        AndErased(ErasedWord);
      }
    }
  }

  /**
   * When the log ends inside a page and the flush leaves room in it, a stray
   * page of zero words turns the page's first word into an entry for tag 0
   * with value 0, and clears bit 16 of the word after the flushed ones, so
   * the next end scan runs past the log end. The intended round keeps the
   * first word and leaves the end erased.
   */
  lemma StrayCorrupts(s: Store, stray: seq<U32>)
    requires Valid(s) && s.end < LogWords && ErasedFrom(s.log, s.end)
    requires |stray| == PageWords && forall j :: 0 <= j < PageWords ==> stray[j] == 0
    requires s.end % PageWords != 0 && 1 <= |s.buf| && s.end % PageWords + |s.buf| < PageWords
    ensures var p, e := PageStart(s.end), s.end + |s.buf|;
      var r := RoundAsWritten(s, stray);
      && Round(s)[p] == s.log[p] && Blank(Round(s)[e])
      && Tag(r[p]) == 0 && Low(r[p]) == 0 && !Blank(r[e])
  {
    var p, e := PageStart(s.end), s.end + |s.buf|;
    var r := RoundAsWritten(s, stray);
    assert p < s.end && e < p + PageWords;
    assert r[p] == 0 by {
      RoundAt(s, stray, p);
    }
    assert r[e] == 0 by {
      RoundAt(s, stray, e);
    }
    assert Round(s)[p] == s.log[p] by {
      RoundValue(s, p);
    }
    assert Round(s)[e] == ErasedWord by {
      RoundValue(s, e);
    }
    ZeroWord();
  }

  /** Erased flash has bit 16 set; a zero word does not, and reads as tag 0 with value 0. */
  lemma ZeroWord()
    ensures Blank(ErasedWord) && !Blank(0) && Tag(0) == 0 && Low(0) == 0
  {
  }
}
