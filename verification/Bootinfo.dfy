/** Boot information: items packed into a buffer by the loader and read back by the kernel. */
module Bootinfo {
  import opened Arith
  import opened MemTypes

  type Byte = b: nat | b < 256

  const ITEM_ALIGN: nat := 8
  /** Kind and payload length, four bytes each. */
  const HEADER_SIZE: nat := 8
  const MAX_BUFFER: nat := 0x7FFF_FFFF
  const U32_LIMIT: nat := 0x1_0000_0000

  datatype Error = BadAlign | BadSize

  datatype Result<T> = Ok(value: T) | Err(error: Error)

  datatype Item = Item(kind: nat, payload: seq<Byte>)

  // ----- Headers -----

  function EncodeU32(n: nat): (s: seq<Byte>)
    ensures |s| == 4
  {
    [n % 256, n / 256 % 256, n / 65536 % 256, n / 16777216 % 256]
  }

  function DecodeU32(s: seq<Byte>): nat
    requires |s| == 4
  {
    var a: nat, b: nat, c: nat, d: nat := s[0], s[1], s[2], s[3];
    a + 256 * b + 65536 * c + 16777216 * d
  }

  lemma {:induction false} U32RoundTrip(n: nat)
    requires n < U32_LIMIT
    ensures DecodeU32(EncodeU32(n)) == n
  {
    assert n / 65536 == n / 256 / 256 && n / 16777216 == n / 65536 / 256;
  }

  function EncodeHeader(kind: nat, len: nat): (s: seq<Byte>)
    ensures |s| == HEADER_SIZE
  {
    EncodeU32(kind) + EncodeU32(len)
  }

  function HeaderKind(s: seq<Byte>): nat
    requires |s| == HEADER_SIZE
  {
    DecodeU32(s[..4])
  }

  function HeaderLen(s: seq<Byte>): nat
    requires |s| == HEADER_SIZE
  {
    DecodeU32(s[4..])
  }

  lemma {:induction false} HeaderRoundTrip(kind: nat, len: nat)
    requires kind < U32_LIMIT && len < U32_LIMIT
    ensures HeaderKind(EncodeHeader(kind, len)) == kind && HeaderLen(EncodeHeader(kind, len)) == len
  {
    var s := EncodeHeader(kind, len);
    assert s[..4] == EncodeU32(kind) && s[4..] == EncodeU32(len);
    U32RoundTrip(kind);
    U32RoundTrip(len);
  }

  /** The layout of a header: kind and length follow each other, the lowest byte of each first. */
  lemma {:induction false} HeaderLayout(kind: nat, len: nat)
    requires kind < U32_LIMIT && len < U32_LIMIT
    ensures var s := EncodeHeader(kind, len);
            && s[0] as int + 256 * s[1] as int + 65536 * s[2] as int + 16777216 * s[3] as int == kind
            && s[4] as int + 256 * s[5] as int + 65536 * s[6] as int + 16777216 * s[7] as int == len
  {
    U32RoundTrip(kind);
    U32RoundTrip(len);
  }

  // ----- Reading -----

  /** `off` rounded up to the alignment of items. */
  function Up(off: nat): (r: nat)
    ensures off <= r < off + 8 && r % 8 == 0
  {
    (off + 7) / 8 * 8
  }

  /** The items from `off` on; `None` is a panic. */
  function Parse(buffer: seq<Byte>, off: nat): Option<seq<Item>>
    decreases |buffer| - off
  {
    if off >= |buffer| then Some([])
    else if off + HEADER_SIZE > |buffer| then None
    else
      var start := off + HEADER_SIZE;
      var header := buffer[off..start];
      var end := start + HeaderLen(header);
      if end > |buffer| then None
      else
        Prefix([Item(HeaderKind(header), buffer[start..end])], Parse(buffer, Up(end)))
  }

  function Prefix(items: seq<Item>, rest: Option<seq<Item>>): Option<seq<Item>> {
    if rest.None? then None else Some(items + rest.value)
  }

  lemma {:induction false} PrefixNext(items: seq<Item>, item: Item, rest: Option<seq<Item>>)
    ensures Prefix(items, Prefix([item], rest)) == Prefix(items + [item], rest)
  {
    assert rest.Some? ==> items + ([item] + rest.value) == items + [item] + rest.value;
  }

  lemma {:induction false} PrefixEnds(items: seq<Item>, rest: Option<seq<Item>>)
    ensures Prefix([], rest) == rest && Prefix(items, Some([])) == Some(items)
  {
    assert rest.Some? ==> [] + rest.value == rest.value;
    assert items + [] == items;
  }

  /** Reads all items. */
  method Items(buffer: seq<Byte>) returns (r: Option<seq<Item>>)
    ensures r == Parse(buffer, 0)
  {
    var items: seq<Item> := [];
    var off := 0;
    PrefixEnds([], Parse(buffer, 0));
    while off < |buffer|
      invariant Parse(buffer, 0) == Prefix(items, Parse(buffer, off))
      decreases |buffer| - off
    {
      var start := off + HEADER_SIZE;
      if start > |buffer| {
        return None;
      }
      var header := buffer[off..start];
      var end := start + HeaderLen(header);
      if end > |buffer| {
        return None;
      }
      var item := Item(HeaderKind(header), buffer[start..end]);
      PrefixNext(items, item, Parse(buffer, Up(end)));
      items := items + [item];
      off := Up(end);
    }
    PrefixEnds(items, None);
    return Some(items);
  }

  // ----- Appending -----

  function Encode(item: Item): seq<Byte> {
    EncodeHeader(item.kind, |item.payload|) + item.payload
  }

  /** An encoded item at the end of a buffer is read from where it starts. */
  lemma {:induction false} ParseLast(front: seq<Byte>, item: Item)
    requires item.kind < U32_LIMIT && |item.payload| < U32_LIMIT
    ensures Parse(front + Encode(item), |front|) == Some([item])
  {
    var buffer, header := front + Encode(item), EncodeHeader(item.kind, |item.payload|);
    var start := |front| + HEADER_SIZE;
    var end := start + |item.payload|;
    assert buffer[|front|..start] == header;
    HeaderRoundTrip(item.kind, |item.payload|);
    assert end == |buffer| && buffer[start..end] == item.payload;
    assert Parse(buffer, Up(end)) == Some([]) && [item] + [] == [item];
  }

  /** Putting an item behind a readable buffer adds it to the items read. */
  lemma {:induction false} ParseAppend(buffer: seq<Byte>, off: nat, pad: seq<Byte>, item: Item, more: seq<Byte>)
    requires Parse(buffer, off).Some? && off % 8 == 0 && off <= Up(|buffer|)
    requires |buffer| + |pad| == Up(|buffer|) && item.kind < U32_LIMIT && |item.payload| < U32_LIMIT
    requires more == pad + Encode(item)
    ensures Parse(buffer + more, off) == Some(Parse(buffer, off).value + [item])
    decreases |buffer| - off
  {
    if off >= |buffer| {
      ParseAppendEnd(buffer, off, pad, item, more);
      assert [] + [item] == [item];
    } else {
      var end := off + HEADER_SIZE + HeaderLen(buffer[off..off + HEADER_SIZE]);
      UpMono(end, |buffer|);
      ParseAppend(buffer, Up(end), pad, item, more);
      ParseSame(buffer, more, off);
      Join(Parse(buffer, off).value[0], Parse(buffer, Up(end)).value, item);
    }
  }

  lemma {:induction false} ParseAppendEnd(buffer: seq<Byte>, off: nat, pad: seq<Byte>, item: Item, more: seq<Byte>)
    requires |buffer| <= off <= Up(|buffer|) && off % 8 == 0
    requires |buffer| + |pad| == Up(|buffer|) && item.kind < U32_LIMIT && |item.payload| < U32_LIMIT
    requires more == pad + Encode(item)
    ensures Parse(buffer, off) == Some([]) && Parse(buffer + more, off) == Some([item])
  {
    assert off == |buffer + pad| && buffer + more == buffer + pad + Encode(item);
    ParseLast(buffer + pad, item);
  }

  lemma {:induction false} Join(first: Item, rest: seq<Item>, last: Item)
    ensures [first] + (rest + [last]) == [first] + rest + [last]
  {
  }

  /** The first item is read in the same way if the buffer goes on. */
  lemma {:induction false} ParseSame(buffer: seq<Byte>, more: seq<Byte>, off: nat)
    requires off < |buffer| && Parse(buffer, off).Some?
    ensures var start := off + HEADER_SIZE; var end := start + HeaderLen(buffer[off..start]);
            Parse(buffer + more, Up(end)).Some? ==>
              && Parse(buffer + more, off) ==
                   Some([Item(HeaderKind(buffer[off..start]), buffer[start..end])] + Parse(buffer + more, Up(end)).value)
              && Parse(buffer, off) ==
                   Some([Item(HeaderKind(buffer[off..start]), buffer[start..end])] + Parse(buffer, Up(end)).value)
  {
    var start := off + HEADER_SIZE;
    var end := start + HeaderLen(buffer[off..start]);
    assert (buffer + more)[off..start] == buffer[off..start];
    assert (buffer + more)[start..end] == buffer[start..end];
  }

  lemma {:induction false} UpMono(a: nat, b: nat)
    requires a <= b
    ensures Up(a) <= Up(b)
  {
  }

  /** Packs items into a buffer. */
  /** A header and a payload that were written behind each other follow what was there before. */
  lemma {:induction false} Written(s0: seq<Byte>, s1: seq<Byte>, s2: seq<Byte>, off: nat, start: nat, header: seq<Byte>, payload: seq<Byte>)
    requires off <= start && start + |header| + |payload| <= |s0|
    requires s1 == s0[..start] + header + s0[start + |header|..]
    requires s2 == s1[..start + |header|] + payload + s1[start + |header| + |payload|..]
    ensures s2[..start + |header| + |payload|] == s0[..off] + (s0[off..start] + (header + payload))
  {
    assert s1[..start + |header|] == s0[..start] + header;
    assert s0[..start] == s0[..off] + s0[off..start];
  }

  class Builder {
    const buffer: array<Byte>
    var off: nat
    /** The items appended so far. */
    ghost var items: seq<Item>

    ghost predicate Valid()
      reads this, buffer
    {
      off <= buffer.Length < MAX_BUFFER && Parse(buffer[..off], 0) == Some(items)
    }

    constructor (buffer: array<Byte>)
      requires buffer.Length < MAX_BUFFER
      ensures Valid() && this.buffer == buffer && items == []
    {
      this.buffer, off, items := buffer, 0, [];
    }

    method WriteBytes(at: nat, bytes: seq<Byte>)
      requires at + |bytes| <= buffer.Length
      modifies buffer
      ensures buffer[..] == old(buffer[..at]) + bytes + old(buffer[at + |bytes|..])
    {
      forall i | 0 <= i < |bytes| {
        buffer[at + i] := bytes[i];
      }
    }

    /** Appends values of some type, given as their bytes and the type's alignment. */
    method AppendSlice(kind: nat, align: nat, payload: seq<Byte>) returns (r: Result<()>)
      requires Valid() && kind < U32_LIMIT
      modifies this, buffer
      ensures Valid()
      ensures r == if align > ITEM_ALIGN then Err(BadAlign)
                   else if Up(old(off)) + HEADER_SIZE + |payload| > buffer.Length then Err(BadSize)
                   else Ok(())
      ensures items == if r.Ok? then old(items) + [Item(kind, payload)] else old(items)
      ensures r.Err? ==> buffer[..] == old(buffer[..]) && off == old(off)
    {
      if align > ITEM_ALIGN {
        return Err(BadAlign);
      }
      var size := |payload|;
      var totalSize := size + HEADER_SIZE;
      var start := Up(off);
      var nextOff := start + totalSize;
      if nextOff > buffer.Length {
        return Err(BadSize);
      }
      ghost var done, pad := buffer[..off], buffer[off..start];
      WriteBytes(start, EncodeHeader(kind, size));
      ghost var s := buffer[..];
      assert s[..start] == done + pad;
      WriteBytes(start + HEADER_SIZE, payload);
      Written(old(buffer[..]), s, buffer[..], off, start, EncodeHeader(kind, size), payload);
      ParseAppend(done, 0, pad, Item(kind, payload), pad + Encode(Item(kind, payload)));
      off := nextOff;
      items := items + [Item(kind, payload)];
      return Ok(());
    }

    /** What was appended is what is read back. */
    method Finish() returns (bytes: seq<Byte>)
      requires Valid()
      ensures Parse(bytes, 0) == Some(items)
    {
      return buffer[..off];
    }
  }

  /** Makes a builder, unless the buffer's address is not aligned or the buffer is too large. */
  method NewBuilder(addr: nat, buffer: array<Byte>) returns (b: Builder?, error: Option<Error>)
    ensures error == if addr % ITEM_ALIGN != 0 then Some(BadAlign)
                     else if buffer.Length >= MAX_BUFFER then Some(BadSize)
                     else None
    ensures error.None? <==> b != null
    ensures b != null ==> fresh(b) && b.buffer == buffer && b.Valid() && b.items == []
  {
    b := null;
    if addr % ITEM_ALIGN != 0 {
      return null, Some(BadAlign);
    }
    if buffer.Length >= MAX_BUFFER {
      return null, Some(BadSize);
    }
    b := new Builder(buffer);
    return b, None;
  }

  // ----- Whole runs -----

  datatype Call = Call(kind: nat, align: nat, payload: seq<Byte>)

  /** The items of the calls that succeeded, in order. */
  function Successful(calls: seq<Call>, results: seq<Result<()>>): seq<Item>
    requires |calls| == |results|
  {
    if calls == [] then []
    else
      var n := |calls| - 1;
      var items := Successful(calls[..n], results[..n]);
      if results[n].Ok? then items + [Item(calls[n].kind, calls[n].payload)] else items
  }

  /** Whatever is appended, with or without success, reading the finished bytes gives exactly what succeeded. */
  method BuildAndRead(b: Builder, calls: seq<Call>) returns (results: seq<Result<()>>, items: Option<seq<Item>>)
    requires b.Valid() && b.items == [] && forall i :: 0 <= i < |calls| ==> calls[i].kind < U32_LIMIT
    modifies b, b.buffer
    ensures |results| == |calls| && items == Some(Successful(calls, results))
  {
    results := [];
    for n := 0 to |calls|
      invariant b.Valid() && |results| == n && b.items == Successful(calls[..n], results)
    {
      var r := b.AppendSlice(calls[n].kind, calls[n].align, calls[n].payload);
      assert calls[..n + 1][..n] == calls[..n] && (results + [r])[..n] == results;
      results := results + [r];
    }
    assert calls[..|calls|] == calls;
    var bytes := b.Finish();
    items := Items(bytes);
  }

  // ----- Payloads in place -----

  /** Where in the buffer each payload starts. */
  /** Where the item behind the one at `off` starts. */
  function NextOff(buffer: seq<Byte>, off: nat): (next: nat)
    requires off + HEADER_SIZE <= |buffer|
    ensures off < next && next % 8 == 0
  {
    Up(off + HEADER_SIZE + HeaderLen(buffer[off..off + HEADER_SIZE]))
  }

  ghost function PayloadOffsets(buffer: seq<Byte>, off: nat): seq<nat>
    requires Parse(buffer, off).Some?
    decreases |buffer| - off
  {
    if off >= |buffer| then [] else [off + HEADER_SIZE] + PayloadOffsets(buffer, NextOff(buffer, off))
  }

  ghost predicate InPlace(buffer: seq<Byte>, off: nat, item: Item) {
    off % ITEM_ALIGN == 0 && off + |item.payload| <= |buffer| && buffer[off..off + |item.payload|] == item.payload
  }

  ghost predicate AllInPlace(buffer: seq<Byte>, offs: seq<nat>, items: seq<Item>) {
    |offs| == |items| && forall i :: 0 <= i < |items| ==> InPlace(buffer, offs[i], items[i])
  }

  lemma {:induction false} InPlaceCons(buffer: seq<Byte>, start: nat, item: Item, offs: seq<nat>, items: seq<Item>)
    requires InPlace(buffer, start, item) && AllInPlace(buffer, offs, items)
    ensures AllInPlace(buffer, [start] + offs, [item] + items)
  {
    forall i | 0 <= i < |items| + 1
      ensures InPlace(buffer, ([start] + offs)[i], ([item] + items)[i])
    {
      assert i > 0 ==> ([start] + offs)[i] == offs[i - 1] && ([item] + items)[i] == items[i - 1];
    }
  }

  /** Every payload is read in place and starts at an aligned offset. */
  lemma {:induction false} PayloadsAligned(buffer: seq<Byte>, off: nat)
    requires Parse(buffer, off).Some? && off % 8 == 0
    ensures AllInPlace(buffer, PayloadOffsets(buffer, off), Parse(buffer, off).value)
    decreases |buffer| - off
  {
    if off < |buffer| {
      var item, next := FirstItem(buffer, off), NextOff(buffer, off);
      FirstInPlace(buffer, off);
      PayloadsAligned(buffer, next);
      InPlaceCons(buffer, off + HEADER_SIZE, item, PayloadOffsets(buffer, next), Parse(buffer, next).value);
    }
  }

  function FirstItem(buffer: seq<Byte>, off: nat): Item
    requires off < |buffer| && Parse(buffer, off).Some?
  {
    var start := off + HEADER_SIZE;
    Item(HeaderKind(buffer[off..start]), buffer[start..start + HeaderLen(buffer[off..start])])
  }

  lemma {:induction false} FirstInPlace(buffer: seq<Byte>, off: nat)
    requires off < |buffer| && Parse(buffer, off).Some? && off % 8 == 0
    ensures InPlace(buffer, off + HEADER_SIZE, FirstItem(buffer, off))
    ensures Parse(buffer, off) == Prefix([FirstItem(buffer, off)], Parse(buffer, NextOff(buffer, off)))
  {
  }

  /** The number of values that a payload at `addr` is read as. */
  function GetSlice(addr: nat, len: nat, size: nat, align: nat): Result<nat>
    requires size > 0 && align > 0
  {
    if len % size != 0 then Err(BadSize) else if addr % align != 0 then Err(BadAlign) else Ok(len / size)
  }

  /** Reading fails with the one error exactly if no whole number of values fits the payload, and with the other exactly if one
      does and the payload is not aligned for them; else the values fill the payload. */
  lemma {:induction false} SliceErrors(addr: nat, len: nat, size: nat, align: nat)
    requires size > 0 && align > 0
    ensures GetSlice(addr, len, size, align) == Err(BadSize) <==> forall n: nat :: n * size != len
    ensures GetSlice(addr, len, size, align) == Err(BadAlign) <==>
              (exists n: nat :: n * size == len) && forall k: nat :: k * align != addr
    ensures forall n: nat :: GetSlice(addr, len, size, align) == Ok(n) <==> n * size == len && exists k: nat :: k * align == addr
  {
    DividesIff(len, size);
    DividesIff(addr, align);
    forall n: nat
      ensures n * size == len ==> len / size == n
    {
      if n * size == len {
        DivModUnique(len, size, n);
      }
    }
    assert len % size == 0 ==> len / size * size == len;
  }

  lemma {:induction false} DividesIff(x: nat, d: nat)
    requires d > 0
    ensures x % d == 0 <==> exists n: nat :: n * d == x
  {
    if x % d == 0 {
      assert x / d * d == x;
    }
    if n: nat :| n * d == x {
      DivModUnique(x, d, n);
    }
  }

  /** Values that were appended are read back as the same number of values of their type. */
  lemma {:induction false} SliceRoundTrip(base: nat, off: nat, count: nat, size: nat, align: nat)
    requires base % ITEM_ALIGN == 0 && off % ITEM_ALIGN == 0 && size > 0 && align in {1, 2, 4, 8}
    ensures GetSlice(base + off, count * size, size, align) == Ok(count)
  {
    AlignedSum(base, off, align);
    DivModUnique(count * size, size, count);
  }

  lemma {:induction false} AlignedSum(base: nat, off: nat, align: nat)
    requires base % ITEM_ALIGN == 0 && off % ITEM_ALIGN == 0 && align in {1, 2, 4, 8}
    ensures (base + off) % align == 0
  {
    var k := base / 8 + off / 8;
    assert base + off == 8 * k;
    if align == 8 {
      DivModUnique(base + off, 8, k);
    } else if align == 4 {
      DivModUnique(base + off, 4, 2 * k);
    } else if align == 2 {
      DivModUnique(base + off, 2, 4 * k);
    }
  }
}
