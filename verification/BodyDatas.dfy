/** The growing response buffer of src/curl.cpp. */
module BodyDatas {
  import opened Bytes
  import opened Fields
  import opened Wrappers

  const RESIZE_APPEND_MIN: nat := 1024
  const RESIZE_APPEND_MID: nat := 1048576
  const RESIZE_APPEND_MAX: nat := 10485760

  /** sizeof(off_t) */
  const BLOCK: nat := 8

  /** Rounding up to whole blocks, as AJUST_BLOCK is meant. */
  function RoundedUp(bytes: nat): nat {
    (bytes / BLOCK + if bytes % BLOCK != 0 then 1 else 0) * BLOCK
  }

  /** What AJUST_BLOCK(wanted - bufsize, BLOCK) is once expanded: only bufsize is divided. */
  function AdjustBlock(wanted: nat, bufsize: nat): int {
    (wanted - bufsize / BLOCK + if wanted - bufsize % BLOCK != 0 then 1 else 0) * BLOCK
  }

  /** The bytes added to a buffer, by the band its size is in. */
  function Growth(wanted: nat, bufsize: nat): int {
    var need := AdjustBlock(wanted, bufsize);
    if RESIZE_APPEND_MAX < bufsize then
      if RESIZE_APPEND_MAX < need then need else RESIZE_APPEND_MAX
    else if RESIZE_APPEND_MID < bufsize then
      if RESIZE_APPEND_MID < need then need else RESIZE_APPEND_MID
    else if RESIZE_APPEND_MIN < bufsize then
      if bufsize * 2 < need then need else bufsize * 2
    else if RESIZE_APPEND_MIN < need then need else RESIZE_APPEND_MIN
  }

  /** The grown buffer has room in every band, and the expansion asks for more than the rounding would. */
  lemma GrowthFits(wanted: nat, bufsize: nat)
    requires bufsize < wanted
    ensures wanted <= bufsize + Growth(wanted, bufsize)
    ensures RoundedUp(wanted - bufsize) <= AdjustBlock(wanted, bufsize) == (wanted - bufsize / BLOCK + 1) * BLOCK
    ensures RESIZE_APPEND_MIN <= Growth(wanted, bufsize)
    ensures RESIZE_APPEND_MIN < bufsize <= RESIZE_APPEND_MID ==> 3 * bufsize <= bufsize + Growth(wanted, bufsize)
    ensures RESIZE_APPEND_MID < bufsize ==> RESIZE_APPEND_MID <= Growth(wanted, bufsize)
    ensures RESIZE_APPEND_MAX < bufsize ==> RESIZE_APPEND_MAX <= Growth(wanted, bufsize)
  {
  }

  /** The least growth for a buffer of some size: 1 KB, twice its size, 1 MB or 10 MB. */
  function LeastGrowth(bufsize: nat): nat {
    if 10 * 1024 * 1024 < bufsize then 10 * 1024 * 1024
    else if 1024 * 1024 < bufsize then 1024 * 1024
    else if 1024 < bufsize then 2 * bufsize
    else 1024
  }

  /** The growth is the least one or what the expansion asks for, whichever is more. */
  lemma GrowthIs(wanted: nat, bufsize: nat)
    requires bufsize < wanted
    ensures LeastGrowth(bufsize) <= Growth(wanted, bufsize) && AdjustBlock(wanted, bufsize) <= Growth(wanted, bufsize)
    ensures Growth(wanted, bufsize) == LeastGrowth(bufsize) || Growth(wanted, bufsize) == AdjustBlock(wanted, bufsize)
    ensures AdjustBlock(wanted, bufsize) == (wanted - bufsize / 8 + 1) * 8
  {
  }

  /** What a C string reader sees of a terminated buffer. */
  lemma {:induction false} TerminatedField(a: Text, rest: Text)
    ensures Field(a + [NUL] + rest, NUL) == Field(a, NUL)
    ensures Field(a, NUL) == a <==> Lacks(a, NUL)
  {
    if a != [] {
      assert (a + [NUL] + rest)[1..] == a[1..] + [NUL] + rest;
      TerminatedField(a[1..], rest);
      assert a == [a[0]] + a[1..];
    }
  }

  class BodyData {
    var text: array?<Byte>
    var lastpos: nat
    var bufsize: nat

    /** A buffer holds its bytes and a terminating zero; without a buffer there is nothing. */
    ghost predicate Valid()
      reads this, text
    {
      if text == null then lastpos == 0 && bufsize == 0
      else text.Length == bufsize && lastpos < bufsize && text[lastpos] == NUL
    }

    ghost function Contents(): Text
      requires Valid()
      reads this, text
    {
      if text == null then [] else text[..lastpos]
    }

    constructor ()
      ensures Valid() && Contents() == []
    {
      text, lastpos, bufsize := null, 0, 0;
    }

    predicate IsSafeSize(addbytes: nat)
      reads this
    {
      !(lastpos + addbytes + 1 > bufsize)
    }

    /** Grows the buffer so that bytes and a zero fit; without memory the buffer is lost. */
    method Resize(addbytes: nat) returns (ok: bool)
      requires Valid()
      modifies this
      ensures lastpos == old(lastpos)
      ensures ok && 0 < addbytes ==> text != null && text.Length == bufsize && lastpos + addbytes + 1 <= bufsize
      ensures ok ==> text == old(text) || fresh(text)
      ensures ok && text != null ==> lastpos <= text.Length && text[..lastpos] == old(Contents())
      ensures ok && old(IsSafeSize(addbytes)) ==> bufsize == old(bufsize)
      ensures ok && !old(IsSafeSize(addbytes)) ==>
        bufsize == old(bufsize) + Growth(lastpos + addbytes + 1, old(bufsize))
      ensures !ok ==> text == null && bufsize == old(bufsize)
    {
      if IsSafeSize(addbytes) {
        return true;
      }
      GrowthFits(lastpos + addbytes + 1, bufsize);
      var needSize := Growth(lastpos + addbytes + 1, bufsize);
      var enough: bool := *;  // realloc
      if !enough {
        text := null;
        return false;
      }
      var newtext := new Byte[bufsize + needSize];
      if text != null {
        forall i | 0 <= i < bufsize {
          newtext[i] := text[i];
        }
      }
      text := newtext;
      bufsize := bufsize + needSize;
      return true;
    }

    method Clear()
      modifies this
      ensures Valid() && Contents() == []
    {
      text, lastpos, bufsize := null, 0, 0;
    }

    /** Appends bytes; fails without any, or without memory, and then the buffer must be cleared. */
    method Append(ptr: Option<Text>) returns (ok: bool)
      requires Valid()
      modifies this, text
      ensures ptr.None? ==> !ok && Valid() && Contents() == old(Contents())
      ensures ok ==> ptr.Some? && Valid() && Contents() == old(Contents()) + ptr.value
      ensures !ok && ptr.Some? ==> ptr.value != [] && text == null
    {
      if ptr.None? {
        return false;
      }
      var bytes := ptr.value;
      if 0 == |bytes| {
        return true;
      }
      ghost var was := Contents();
      ok := Resize(|bytes|);
      if !ok {
        return;
      }
      forall i | 0 <= i < |bytes| {
        text[lastpos + i] := bytes[i];
      }
      assert text[..lastpos] == was;
      lastpos := lastpos + |bytes|;
      text[lastpos] := NUL;
      assert text[..lastpos] == was + bytes;
    }

    /** What str() shows: the contents up to their first zero, so all of them if there is none. */
    function Str(): (s: Text)
      requires Valid()
      reads this, text
      ensures s == Field(Contents(), NUL)
      ensures s == Contents() <==> Lacks(Contents(), NUL)
    {
      if text == null then []
      else
        TerminatedField(text[..lastpos], text[lastpos + 1..]);
        assert text[..] == text[..lastpos] + [NUL] + text[lastpos + 1..];
        Field(text[..], NUL)
    }

    function Size(): (r: nat)
      requires Valid()
      reads this, text
      ensures r == |Contents()|
    {
      lastpos
    }
  }
}
