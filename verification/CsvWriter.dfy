/**
 The quoting writer in its two forms: into a buffer of limited size and onto a stream
 that may fail. Both produce prefixes of one quoted form.
 */
module CsvWriter {
  import opened Wrappers
  import opened CsvSpec

  /** The bytes of a field with every quote doubled. */
  function Escape(src: seq<Byte>, quote: Byte): (r: seq<Byte>)
    ensures |src| <= |r| <= 2 * |src|
  {
    if src == [] then []
    else (if src[0] == quote then [quote, quote] else [src[0]]) + Escape(src[1..], quote)
  }

  /** The quoted form of a field. */
  function Quoted(src: seq<Byte>, quote: Byte): seq<Byte> {
    [quote] + Escape(src, quote) + [quote]
  }

  function Min(a: nat, b: nat): nat { if a < b then a else b }

  function Saturate(n: nat): Usize { if n <= USIZE_MAX then n else USIZE_MAX }

  lemma {:induction false} EscapeConcat(a: seq<Byte>, b: seq<Byte>, quote: Byte)
    ensures Escape(a + b, quote) == Escape(a, quote) + Escape(b, quote)
  {
    if a == [] {
      assert a + b == b;
    } else {
      assert (a + b)[1..] == a[1..] + b;
      EscapeConcat(a[1..], b, quote);
    }
  }

  /** Every quote inside is doubled, and nothing else changes. */
  lemma {:induction false} QuotedIs(a: seq<Byte>, b: seq<Byte>, quote: Byte)
    ensures quote !in a ==> Quoted(a, quote) == [quote] + a + [quote]
    ensures Quoted(a + [quote] + b, quote) == [quote] + Escape(a, quote) + [quote, quote] + Escape(b, quote) + [quote]
  {
    if quote !in a { EscapeSame(a, quote); }
    EscapeConcat(a + [quote], b, quote);
    EscapeConcat(a, [quote], quote);
    assert Escape([quote], quote) == [quote, quote] by { assert [quote][1..] == []; }
  }

  lemma {:induction false} EscapeSame(a: seq<Byte>, quote: Byte)
    requires quote !in a
    ensures Escape(a, quote) == a
  {
    if a != [] {
      assert a[0] in a && quote !in a[1..];
      EscapeSame(a[1..], quote);
    }
  }

  /** What has been written once the first `i` bytes of `src` are done. */
  function Written(src: seq<Byte>, i: nat, quote: Byte): seq<Byte>
    requires i <= |src|
  {
    [quote] + Escape(src[..i], quote)
  }

  lemma WrittenNext(src: seq<Byte>, i: nat, quote: Byte)
    requires i < |src|
    ensures src[i] == quote ==> Written(src, i + 1, quote) == Written(src, i, quote) + [quote] + [quote]
    ensures src[i] != quote ==> Written(src, i + 1, quote) == Written(src, i, quote) + [src[i]]
  {
    var c := src[i];
    assert src[..i + 1] == src[..i] + [c];
    EscapeConcat(src[..i], [c], quote);
    assert [c][1..] == [];
    assert Escape([], quote) == [];
  }

  lemma WrittenStart(src: seq<Byte>, quote: Byte)
    ensures Written(src, 0, quote) == [] + [quote]
  {
    assert src[..0] == [];
  }

  lemma WrittenEnd(src: seq<Byte>, quote: Byte)
    ensures Quoted(src, quote) == Written(src, |src|, quote) + [quote]
  {
    assert src[..|src|] == src;
  }

  lemma WrittenIsPrefix(src: seq<Byte>, i: nat, quote: Byte)
    requires i <= |src|
    ensures Written(src, i, quote) <= Quoted(src, quote)
  {
    assert src == src[..i] + src[i..];
    EscapeConcat(src[..i], src[i..], quote);
  }

  /**
   The writer's buffer after it has been offered `text`: the first bytes of `text`, as many as fit,
   in front of what the buffer held there before.
   */
  ghost predicate Holds(now: seq<Byte>, before: seq<Byte>, capacity: nat, text: seq<Byte>)
    requires capacity <= |before|
  {
    var n := Min(capacity, |text|);
    now == text[..n] + before[n..]
  }

  lemma HoldsNothing(before: seq<Byte>, capacity: nat)
    requires capacity <= |before|
    ensures Holds(before, before, capacity, [])
  {
    assert before[0..] == before;
  }

  /** One byte offered to the buffer: stored if it still fits, counted unless the count is at its maximum. */
  method Offer(dest: array?<Byte>, room: Usize, cdest: nat, chars: Usize, b: Byte,
               ghost before: seq<Byte>, ghost text: seq<Byte>) returns (cdest': nat, chars': Usize)
    requires dest == null ==> room == 0
    requires dest != null ==> room <= dest.Length == |before| && Holds(dest[..], before, room, text)
    requires cdest == Min(room, |text|) && chars == Saturate(|text|)
    modifies if dest == null then {} else {dest}
    ensures cdest' == Min(room, |text + [b]|) && chars' == Saturate(|text + [b]|)
    ensures dest != null ==> Holds(dest[..], before, room, text + [b])
  {
    cdest', chars' := cdest, chars;
    if room > chars {
      assert text[..cdest] == text;
      dest[cdest] := b;
      cdest' := cdest + 1;
      assert before[cdest..] == [before[cdest]] + before[cdest'..];
      assert dest[..] == text + [b] + before[cdest'..];
    } else if dest != null {
      assert (text + [b])[..room] == text[..room];
    }
    if chars < USIZE_MAX { chars' := chars + 1; }
  }

  /** `csv_write2`. A missing source is `None`, a missing destination is `null`. */
  method Write2(dest: array?<Byte>, destSize: Usize, src: Option<seq<Byte>>, quote: Byte) returns (chars: Usize)
    requires dest != null ==> destSize <= dest.Length
    modifies if dest == null then {} else {dest}
    ensures src.None? ==> chars == 0 && (dest != null ==> dest[..] == old(dest[..]))
    ensures src.Some? ==> chars == Min(|Quoted(src.value, quote)|, 0xFFFF_FFFF_FFFF_FFFF)
    ensures src.Some? && dest != null ==> Holds(dest[..], old(dest[..]), destSize, Quoted(src.value, quote))
  {
    chars := 0;
    if src.None? { return; }
    var csrc := src.value;
    var room := if dest == null then 0 else destSize;
    ghost var before := if dest == null then [] else dest[..];
    if dest != null { HoldsNothing(before, room); }
    WrittenStart(csrc, quote);
    WrittenEnd(csrc, quote);
    hide Holds, Written, Quoted;
    var cdest;
    cdest, chars := Offer(dest, room, 0, chars, quote, before, []);
    var i := 0;
    while i < |csrc|
      invariant i <= |csrc|
      invariant cdest == Min(room, |Written(csrc, i, quote)|) && chars == Saturate(|Written(csrc, i, quote)|)
      invariant dest != null ==> dest.Length == |before| && Holds(dest[..], before, room, Written(csrc, i, quote))
    {
      WrittenNext(csrc, i, quote);
      ghost var text := Written(csrc, i, quote);
      if csrc[i] == quote {
        cdest, chars := Offer(dest, room, cdest, chars, quote, before, text);
        text := text + [quote];
      }
      cdest, chars := Offer(dest, room, cdest, chars, csrc[i], before, text);
      i := i + 1;
    }
    cdest, chars := Offer(dest, room, cdest, chars, quote, before, Written(csrc, i, quote));
  }

  /** A stream that takes `left` more bytes and then fails. */
  class Sink {
    var out: seq<Byte>
    var left: nat

    /** Of a stream that started at `before` with room for `room` bytes, and took all of `text`. */
    ghost predicate Took(before: seq<Byte>, room: nat, text: seq<Byte>)
      reads this
    {
      |text| <= room && left == room - |text| && out == before + text
    }

    /** Write the byte of `full` that comes after `text`; when that fails the stream is as full as it gets. */
    method WriteAll(b: Byte, ghost before: seq<Byte>, ghost room: nat, ghost text: seq<Byte>, ghost full: seq<Byte>)
      returns (ok: bool)
      requires Took(before, room, text) && text + [b] <= full
      modifies this
      ensures ok ==> Took(before, room, text + [b])
      ensures !ok ==> room < |full| && Took(before, room, full[..room])
    {
      ok := left > 0;
      if ok {
        out, left := out + [b], left - 1;
        assert before + text + [b] == before + (text + [b]);
      } else {
        assert full[..room] == text;
      }
    }
  }

  /** `csv_fwrite2`: all of the quoted form, or an error after as much of it as the stream took. */
  method FWrite2(fp: Sink?, src: Option<seq<Byte>>, quote: Byte) returns (ok: bool)
    modifies if fp == null then {} else {fp}
    ensures fp == null || src.None? ==> ok
    ensures fp != null && src.None? ==> fp.out == old(fp.out) && fp.left == old(fp.left)
    ensures fp != null && src.Some? && ok ==> fp.Took(old(fp.out), old(fp.left), Quoted(src.value, quote))
    ensures !ok ==> fp != null && src.Some? && old(fp.left) < |Quoted(src.value, quote)|
    ensures !ok ==> fp.Took(old(fp.out), old(fp.left), Quoted(src.value, quote)[..old(fp.left)])
  {
    if fp == null || src.None? { return true; }
    var bytes := src.value;
    ghost var full := Quoted(bytes, quote);
    ghost var before, room := fp.out, fp.left;
    WrittenIsPrefix(bytes, 0, quote);
    assert fp.Took(before, room, []);
    WrittenStart(bytes, quote);
    WrittenEnd(bytes, quote);
    hide Written, Quoted;
    ok := fp.WriteAll(quote, before, room, [], full);
    if !ok { return; }
    var i := 0;
    while i < |bytes|
      invariant i <= |bytes|
      invariant fp.Took(before, room, Written(bytes, i, quote))
    {
      WrittenNext(bytes, i, quote);
      WrittenIsPrefix(bytes, i + 1, quote);
      ghost var text := Written(bytes, i, quote);
      if bytes[i] == quote {
        ok := fp.WriteAll(quote, before, room, text, full);
        if !ok { return; }
        text := text + [quote];
      }
      ok := fp.WriteAll(bytes[i], before, room, text, full);
      if !ok { return; }
      i := i + 1;
    }
    ok := fp.WriteAll(quote, before, room, Written(bytes, i, quote), full);
  }
}
