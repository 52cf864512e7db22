/** skip_trailing_space in both compiled forms: lib/mysql/m_string.h. */
module TrailingSpace {
  import opened Basics
  import opened ByteOrder

  const SPACE: byte := 0x20

  /** `end` is the end of the longest prefix of `s` that does not end in a space. */
  ghost predicate TrimEnd(s: seq<byte>, end: int) {
    && 0 <= end <= |s|
    && (forall i :: end <= i < |s| ==> s[i] == SPACE)
    && (end > 0 ==> s[end - 1] != SPACE)
  }

  /** The naive loop both forms speed up. */
  function Naive(s: seq<byte>): (end: nat)
    ensures TrimEnd(s, end)
  {
    if s != [] && s[|s| - 1] == SPACE then Naive(s[..|s| - 1]) else |s|
  }

  /** There is one such end, so every form that finds it agrees with the naive loop. */
  lemma TrimEndIsUnique(s: seq<byte>, e: int, f: int)
    requires TrimEnd(s, e) && TrimEnd(s, f)
    ensures e == f
  {
  }

  ghost predicate AllSpaces(s: seq<byte>) {
    forall i :: 0 <= i < |s| ==> s[i] == SPACE
  }

  /** Nothing but spaces from index k on. */
  ghost predicate SpacesFrom(s: seq<byte>, k: int) {
    0 <= k <= |s| && forall i :: k <= i < |s| ==> s[i] == SPACE
  }

  lemma SpacesJoin(s: seq<byte>, lo: nat, hi: nat)
    requires lo <= hi <= |s| && AllSpaces(s[lo..hi]) && SpacesFrom(s, hi)
    ensures SpacesFrom(s, lo)
  {
    assert forall i :: lo <= i < hi ==> s[i] == s[lo..hi][i - lo];
  }

  function Spaces(n: nat): (s: seq<byte>)
    ensures |s| == n && AllSpaces(s)
  {
    seq(n, _ => SPACE)
  }

  lemma SpaceWords()
    ensures Value(Spaces(4), 0, 4) == 0x2020_2020 && Value(Spaces(8), 0, 8) == 0x2020_2020_2020_2020
  {
    UnsignedLoads(Spaces(4));
    UnsignedLoads(Spaces(8));
  }

  /** A word equals the word of spaces exactly when all its bytes are spaces. */
  lemma WordOfSpaces(bs: seq<byte>)
    ensures Value(bs, 0, |bs|) == Value(Spaces(|bs|), 0, |bs|) <==> AllSpaces(bs)
  {
    if AllSpaces(bs) {
      assert bs == Spaces(|bs|);
    }
    if Value(bs, 0, |bs|) == Value(Spaces(|bs|), 0, |bs|) {
      ValueIsInjective(bs, Spaces(|bs|));
    }
  }

  lemma EightSpaces(bs: seq<byte>)
    requires |bs| == 8
    ensures Uint8korr(bs) == 0x2020_2020_2020_2020 <==> AllSpaces(bs)
  {
    UnsignedLoads(bs);
    SpaceWords();
    WordOfSpaces(bs);
  }

  /** The form for every platform but sparc: eight bytes at a time, then byte by byte. */
  method SkipTrailingSpace(s: seq<byte>) returns (end: nat)
    ensures TrimEnd(s, end) && end == Naive(s)
  {
    end := |s|;
    while end >= 8
      invariant SpacesFrom(s, end)
    {
      EightSpaces(s[end - 8..end]);
      if Uint8korr(s[end - 8..end]) != 0x2020_2020_2020_2020 {
        break;
      }
      SpacesJoin(s, end - 8, end);
      end := end - 8;
    }
    while end > 0 && s[end - 1] == SPACE
      invariant SpacesFrom(s, end)
    {
      end := end - 1;
    }
    TrimEndIsUnique(s, end, Naive(s));
  }

  function Reversed(s: seq<byte>): (r: seq<byte>)
    ensures |r| == |s| && forall i :: 0 <= i < |s| ==> r[i] == s[|s| - 1 - i]
  {
    seq(|s|, i requires 0 <= i < |s| => s[|s| - 1 - i])
  }

  predicate Aligned(addr: nat, width: nat) {
    if width == 4 then addr % 4 == 0 else addr % 8 == 0
  }

  /** The native word at the aligned address `addr`, in a string that starts at address `ptr`. */
  function LoadWord(s: seq<byte>, ptr: nat, addr: nat, width: nat, bigEndian: bool): nat
    requires Aligned(addr, width)
    requires ptr <= addr && addr + width <= ptr + |s|
  {
    var bs := s[addr - ptr..addr - ptr + width];
    if bigEndian then Value(Reversed(bs), 0, width) else Value(bs, 0, width)
  }

  /** SPACE_INT for the two supported sizes of int. */
  function SpaceInt(width: nat): nat {
    if width == 4 then 0x2020_2020 else 0x2020_2020_2020_2020
  }

  lemma ReversedSpaces(bs: seq<byte>)
    ensures AllSpaces(Reversed(bs)) <==> AllSpaces(bs)
  {
    assert forall i :: 0 <= i < |bs| ==> bs[i] == Reversed(bs)[|bs| - 1 - i];
  }

  /** Whatever the byte order, a word equals SPACE_INT exactly when its bytes are all spaces. */
  lemma AlignedSpaces(s: seq<byte>, ptr: nat, addr: nat, width: nat, bigEndian: bool)
    requires width == 4 || width == 8
    requires Aligned(addr, width) && ptr <= addr && addr + width <= ptr + |s|
    ensures LoadWord(s, ptr, addr, width, bigEndian) == SpaceInt(width) <==>
            AllSpaces(s[addr - ptr..addr - ptr + width])
  {
    var bs := s[addr - ptr..addr - ptr + width];
    SpaceWords();
    WordOfSpaces(if bigEndian then Reversed(bs) else bs);
    ReversedSpaces(bs);
  }

  function RoundDown(x: nat, width: nat): (r: nat)
    requires width == 4 || width == 8
    ensures r <= x < r + width && Aligned(r, width)
  {
    x / width * width
  }

  lemma MultiplesOf4(low: nat, addr: nat)
    requires low < addr && low % 4 == 0 && addr % 4 == 0
    ensures low + 4 <= addr && (addr - 4) % 4 == 0
  {
  }

  lemma MultiplesOf8(low: nat, addr: nat)
    requires low < addr && low % 8 == 0 && addr % 8 == 0
    ensures low + 8 <= addr && (addr - 8) % 8 == 0
  {
  }

  /** Stepping one word down from an aligned address stays aligned and above every lower aligned one. */
  lemma WordBelow(low: nat, addr: nat, width: nat)
    requires (width == 4 || width == 8) && low < addr && Aligned(low, width) && Aligned(addr, width)
    ensures low <= addr - width && Aligned(addr - width, width)
  {
    if width == 4 {
      MultiplesOf4(low, addr);
    } else {
      MultiplesOf8(low, addr);
    }
  }

  /** The aligned loop: from the aligned address `from` down to `startWords`, one word at a time. */
  method SkipSpaceWords(s: seq<byte>, ptr: nat, startWords: nat, from: nat, width: nat, bigEndian: bool)
    returns (end: nat)
    requires (width == 4 || width == 8) && Aligned(startWords, width) && Aligned(from, width)
    requires ptr <= startWords <= from && SpacesFrom(s, from - ptr)
    ensures startWords <= end <= from && SpacesFrom(s, end - ptr)
  {
    end := from;
    while end > startWords
      invariant startWords <= end <= from && Aligned(end, width) && SpacesFrom(s, end - ptr)
    {
      WordBelow(startWords, end, width);
      AlignedSpaces(s, ptr, end - width, width, bigEndian);
      if LoadWord(s, ptr, end - width, width, bigEndian) != SpaceInt(width) {
        break;
      }
      SpacesJoin(s, end - width - ptr, end - ptr);
      end := end - width;
    }
  }

  /** The sparc form: aligned words in the middle of strings longer than 20 bytes.  `ptr` is the
      start address; the object lies within the address space.  LoadWord's precondition makes every
      word access aligned and inside the string. */
  method SkipTrailingSpaceAligned(s: seq<byte>, ptr: nat, width: nat, bigEndian: bool) returns (end: nat)
    requires (width == 4 || width == 8) && ptr + |s| < TWO64
    ensures ptr <= end && TrimEnd(s, end - ptr) && end - ptr == Naive(s)
  {
    end := ptr + |s|;
    if |s| > 20 {
      var endWords := RoundDown(end, width);
      var startWords := RoundDown((ptr + width - 1) % TWO64, width);
      assert endWords > ptr && startWords >= ptr;
      while end > endWords && s[end - ptr - 1] == SPACE
        invariant endWords <= end && SpacesFrom(s, end - ptr)
      {
        end := end - 1;
      }
      if s[end - ptr - 1] == SPACE && startWords < endWords {
        end := SkipSpaceWords(s, ptr, startWords, end, width, bigEndian);
      }
    }
    while end > ptr && s[end - ptr - 1] == SPACE
      invariant ptr <= end && SpacesFrom(s, end - ptr)
    {
      end := end - 1;
    }
    TrimEndIsUnique(s, end - ptr, Naive(s));
  }
}
