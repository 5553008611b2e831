/** extractFileFromTarball: walking the 512-byte blocks of a tar archive. */
module Tarball {
  import opened Strings
  import opened Utf8
  import opened Wrappers

  // ---------------------------------------------------------------- header fields

  function DropLine(text: seq<int>): (r: seq<int>)
    ensures |r| <= |text|
  {
    if text == [] || LineTerminator(text[0]) then text else DropLine(text[1..])
  }

  /** Every NUL goes, and with it the rest of its line. */
  function StripNul(text: seq<int>): seq<int>
    decreases |text|
  {
    if text == [] then []
    else if text[0] == 0 then StripNul(DropLine(text[1..]))
    else [text[0]] + StripNul(text[1..])
  }

  predicate OctalDigit(c: int) {
    48 <= c < 56
  }

  /** The value of the leading octal digits, on top of value. */
  function OctalValue(text: seq<int>, value: nat): int {
    if text == [] || !OctalDigit(text[0]) then value else OctalValue(text[1..], 8 * value + (text[0] - 48))
  }

  /** parseInt(text, 8), where None is NaN. */
  function ParseOctal(text: seq<int>): Option<int> {
    var t := TrimStart(text, (c: int) => c);
    var negative := t != [] && t[0] == 45;
    var digits := if t != [] && (t[0] == 43 || t[0] == 45) then t[1..] else t;
    if digits == [] || !OctalDigit(digits[0]) then None
    else Some(if negative then -OctalValue(digits, 0) else OctalValue(digits, 0))
  }

  // ---------------------------------------------------------------- the loop

  /** One end of a subarray: negative counts from the end, and both ends are clamped. */
  function Clamp(x: int, length: nat): (r: nat)
    ensures r <= length
  {
    if x < 0 then (if length + x < 0 then 0 else length + x) else if x > length then length else x
  }

  function Subarray(buf: seq<Byte>, from: int, to: int): seq<Byte> {
    var b, e := Clamp(from, |buf|), Clamp(to, |buf|);
    if b <= e then buf[b..e] else []
  }

  function FileName(header: seq<Byte>): seq<int> {
    StripNul(Decode(Subarray(header, 0, 100)))
  }

  function FileSize(header: seq<Byte>): Option<int> {
    ParseOctal(StripNul(Decode(Subarray(header, 124, 136))))
  }

  const TWO32: int := 0x1_0000_0000

  /** The bitwise operators work on 32-bit two's complement. */
  function ToInt32(n: int): int {
    var m := n % TWO32;
    if m >= TWO32 / 2 then m - TWO32 else m
  }

  /** n & ~511 */
  function BlockStart(n: int): int {
    ToInt32(n) - ToInt32(n) % 512
  }

  datatype Outcome = Found(content: seq<Byte>) | Missing | Next(offset: int)

  /** One turn of the loop. NaN as an end means 0 to subarray, and 0 to the bitwise and. */
  function Turn(buf: seq<Byte>, path: seq<int>, offset: int): Outcome {
    if offset >= |buf| then Missing
    else
      var header := Subarray(buf, offset, offset + 512);
      var size := FileSize(header);
      if FileName(header) == path then
        Found(Subarray(buf, offset + 512, if size.Some? then offset + 512 + size.value else 0))
      else
        Next(if size.Some? then BlockStart(offset + 512 + size.value + 511) else 0)
  }

  /** The loop after at most n turns. */
  function Turns(buf: seq<Byte>, path: seq<int>, offset: int, n: nat): Outcome
    decreases n
  {
    if n == 0 then Next(offset)
    else
      var o := Turn(buf, path, offset);
      if o.Next? then Turns(buf, path, o.offset, n - 1) else o
  }

  ghost predicate Ends(buf: seq<Byte>, path: seq<int>, offset: int) {
    exists n: nat :: !Turns(buf, path, offset, n).Next?
  }

  /** For the inputs on which the loop ends at all; ArchiveAnswers says which archives those are. */
  method ExtractFileFromTarball(buf: seq<Byte>, path: seq<int>) returns (r: Option<seq<Byte>>)
    requires Ends(buf, path, 0)
    ensures exists n: nat :: Turns(buf, path, 0, n) == match r case Some(c) => Found(c) case None => Missing
  {
    hide FileName, FileSize, Subarray, BlockStart;
    var offset := 0;
    ghost var left: nat :| !Turns(buf, path, 0, left).Next?;
    ghost var all := left;
    while offset < |buf|
      invariant Turns(buf, path, offset, left) == Turns(buf, path, 0, all)
      decreases left
    {
      assert Turn(buf, path, offset).Next? ==> left > 0;
      var header := Subarray(buf, offset, offset + 512);
      offset := offset + 512;
      var fileName := FileName(header);
      var fileSize := FileSize(header);
      if fileName == path {
        r := Some(Subarray(buf, offset, if fileSize.Some? then offset + fileSize.value else 0));
        assert Turns(buf, path, 0, all) == Found(r.value);
        return;
      }
      offset := if fileSize.Some? then BlockStart(offset + fileSize.value + 511) else 0;
      left := left - 1;
    }
    r := None;
    assert Turns(buf, path, 0, all) == Missing;
  }

  // ---------------------------------------------------------------- archives

  /** A file as the ustar Interchange Format stores it: a header block and its content. */
  datatype Entry = Entry(header: seq<Byte>, content: seq<Byte>)

  predicate ReadableEntry(e: Entry) {
    |e.header| == 512 && FileSize(e.header) == Some(|e.content|)
  }

  function Zeros(n: nat): (r: seq<Byte>)
    ensures |r| == n && forall k :: 0 <= k < n ==> r[k] == 0
  {
    if n == 0 then [] else [0] + Zeros(n - 1)
  }

  /** Content is padded to whole blocks. */
  function Padding(n: nat): nat {
    (512 - n % 512) % 512
  }

  function Layout(entries: seq<Entry>): seq<Byte> {
    if entries == [] then []
    else Blocks(entries[0]) + Layout(entries[1..])
  }

  /** The blocks of one entry. */
  function Blocks(e: Entry): seq<Byte> {
    e.header + e.content + Zeros(Padding(|e.content|))
  }

  lemma BlocksAligned(e: Entry)
    requires ReadableEntry(e)
    ensures |Blocks(e)| == 512 + |e.content| + Padding(|e.content|) && |Blocks(e)| % 512 == 0
  {
    PaddedAligned(0, |e.content|);
  }

  lemma SumAligned(a: int, b: int)
    requires a % 512 == 0 && b % 512 == 0
    ensures (a + b) % 512 == 0
  {
  }

  lemma {:induction false} LayoutAligned(entries: seq<Entry>)
    requires forall e :: e in entries ==> ReadableEntry(e)
    ensures |Layout(entries)| % 512 == 0
  {
    if entries != [] {
      hide ReadableEntry, Blocks;
      BlocksAligned(entries[0]);
      LayoutAligned(entries[1..]);
      SumAligned(|Blocks(entries[0])|, |Layout(entries[1..])|);
    }
  }

  predicate Named(e: Entry, path: seq<int>) {
    FileName(e.header) == path
  }

  /** The position of the first entry of that name, or the number of entries. */
  function FirstNamed(entries: seq<Entry>, path: seq<int>): (k: nat)
    ensures k <= |entries|
    ensures forall j :: 0 <= j < k ==> !Named(entries[j], path)
    ensures k < |entries| ==> Named(entries[k], path)
  {
    if entries == [] || Named(entries[0], path) then 0 else 1 + FirstNamed(entries[1..], path)
  }

  /** Standing on an entry's header, the loop reads that entry, and otherwise moves to the header
      after it if and only if that header lies within the first 2^31 bytes. */
  lemma TurnAtEntry(buf: seq<Byte>, offset: nat, e: Entry, after: seq<Byte>, path: seq<int>)
    requires ReadableEntry(e) && offset % 512 == 0
    requires offset <= |buf| && buf[offset..] == Blocks(e) + after
    ensures Named(e, path) ==> Turn(buf, path, offset) == Found(e.content)
    ensures !Named(e, path) ==> Turn(buf, path, offset).Next?
    ensures !Named(e, path) ==>
              (Turn(buf, path, offset).offset == offset + |Blocks(e)| <==> offset + |Blocks(e)| < TWO32 / 2)
    ensures offset + |Blocks(e)| <= |buf| && buf[offset + |Blocks(e)|..] == after
  {
    hide StripNul, ParseOctal, Decode, BlockStart, Padding, Zeros, Subarray;
    BlocksAligned(e);
    var here := buf[offset..];
    assert |here| == |buf| - offset == |Blocks(e)| + |after|;
    BlockEnd(offset, |e.content|);
    SliceOf(buf, offset, 0, 512);
    SliceOf(buf, offset, 512, 512 + |e.content|);
    assert here[0..512] == e.header && here[512..512 + |e.content|] == e.content;
    assert here[|Blocks(e)|..] == after;
  }

  lemma SliceOf(buf: seq<Byte>, offset: nat, from: nat, to: nat)
    requires from <= to && offset + to <= |buf|
    ensures Subarray(buf, offset + from, offset + to) == buf[offset..][from..to]
  {
  }

  lemma BlockEnd(o: nat, n: nat)
    requires o % 512 == 0
    ensures var end := o + 512 + n + Padding(n); BlockStart(o + 512 + n + 511) == end <==> end < TWO32 / 2
  {
    PaddedAligned(o, n);
    RoundedDown(o + 512 + n + 511, o + 512 + n + Padding(n));
    hide Padding;
  }

  lemma RoundedDown(sum: nat, end: nat)
    requires end % 512 == 0 && end <= sum < end + 512
    ensures BlockStart(sum) == end <==> end < TWO32 / 2
  {
    if end < TWO32 / 2 {
      var q := end / 512;
      assert end == 512 * q && q < 0x40_0000;
      assert sum < TWO32 / 2;
      assert sum % 512 == sum - end;
    } else {
      assert ToInt32(sum) < TWO32 / 2;
    }
  }

  lemma PaddedAligned(b: nat, n: nat)
    requires b % 512 == 0
    ensures (b + 512 + n + Padding(n)) % 512 == 0
    ensures n + Padding(n) <= n + 511 < n + Padding(n) + 512
  {
    var r := n % 512;
    assert Padding(n) == if r == 0 then 0 else 512 - r;
  }

  /** From any aligned header the loop returns the first entry of that name, or reaches the end of
      the entries, as long as it finds either within the first 2^31 bytes. */
  lemma {:induction false} WalkEntries(
    buf: seq<Byte>, offset: nat, entries: seq<Entry>, tail: seq<Byte>, path: seq<int>)
    requires forall e :: e in entries ==> ReadableEntry(e)
    requires offset % 512 == 0 && offset <= |buf| && buf[offset..] == Layout(entries) + tail
    requires offset + |Layout(entries[..FirstNamed(entries, path)])| < TWO32 / 2
    ensures var k := FirstNamed(entries, path);
            if k < |entries| then Turns(buf, path, offset, k + 1) == Found(entries[k].content)
            else Turns(buf, path, offset, |entries|) == Next(|buf| - |tail|)
    decreases |entries|
  {
    hide ReadableEntry, Turn, Turns, Named, Blocks;
    if entries == [] {
      assert |buf[offset..]| == |tail|;
      NoTurn(buf, path, offset);
    } else {
      var e, rest := entries[0], entries[1..];
      assert ReadableEntry(e);
      BlocksAligned(e);
      SumAligned(offset, |Blocks(e)|);
      assert Layout(entries) + tail == Blocks(e) + (Layout(rest) + tail);
      TurnAtEntry(buf, offset, e, Layout(rest) + tail, path);
      var k := FirstNamed(entries, path);
      if k > 0 {
        assert k == 1 + FirstNamed(rest, path) && entries[..k][1..] == rest[..k - 1];
        WalkEntries(buf, offset + |Blocks(e)|, rest, tail, path);
      }
      TurnsUnfold(buf, path, offset, if k < |entries| then k + 1 else k);
    }
  }

  lemma NoTurn(buf: seq<Byte>, path: seq<int>, offset: int)
    ensures Turns(buf, path, offset, 0) == Next(offset)
  {
  }

  lemma TurnsUnfold(buf: seq<Byte>, path: seq<int>, offset: int, n: nat)
    requires n > 0
    ensures Turns(buf, path, offset, n) ==
            var o := Turn(buf, path, offset); if o.Next? then Turns(buf, path, o.offset, n - 1) else o
  {
    hide Turn;
  }

  // ---------------------------------------------------------------- what an archive answers

  /** The bytes after the last entry: nothing, or a zero block with anything behind it. A complete
      archive ends in two zero blocks, and writers often fill up a longer record with zeros. */
  predicate Trailer(tail: seq<Byte>) {
    forall k :: 0 <= k < |tail| && k < 512 ==> tail[k] == 0
  }

  /** A zero block has no name and a size that is not a number, which sends the loop back to the
      start of the buffer. */
  lemma TurnAtZeros(before: seq<Byte>, tail: seq<Byte>, path: seq<int>)
    requires Trailer(tail) && tail != []
    ensures Turn(before + tail, path, |before|) == if path == [] then Found([]) else Next(0)
  {
    hide StripNul, ParseOctal, Decode;
    var buf := before + tail;
    var header := Subarray(buf, |before|, |before| + 512);
    assert forall k :: 0 <= k < |header| ==> header[k] == 0;
    ZerosReadEmpty(Subarray(header, 0, 100));
    ZerosReadEmpty(Subarray(header, 124, 136));
    EmptyIsNaN();
  }

  lemma ZerosReadEmpty(bytes: seq<Byte>)
    requires forall k :: 0 <= k < |bytes| ==> bytes[k] == 0
    ensures StripNul(Decode(bytes)) == []
  {
    AsciiDecodes(bytes);
    var pad: seq<int> := bytes;
    StripPadded([], pad);
    assert [] + pad == pad;
  }

  lemma AsciiDecodes(bytes: seq<Byte>)
    requires forall b <- bytes :: b < 0x80
    ensures Decode(bytes) == bytes
  {
    AsciiReads(bytes, []);
    var text: seq<int> := bytes;
    assert bytes + [] == bytes && text + [] == text;
  }

  lemma {:induction false} AllDropped(text: seq<int>)
    requires forall k :: 0 <= k < |text| ==> !LineTerminator(text[k])
    ensures DropLine(text) == []
  {
    if text != [] { AllDropped(text[1..]); }
  }

  lemma EmptyIsNaN()
    ensures ParseOctal([]) == None
  {
  }

  /** Turns compose. */
  lemma {:induction false} TurnsAdd(buf: seq<Byte>, path: seq<int>, offset: int, m: nat, n: nat)
    requires Turns(buf, path, offset, m).Next?
    ensures Turns(buf, path, offset, m + n) == Turns(buf, path, Turns(buf, path, offset, m).offset, n)
    decreases m
  {
    hide Turn;
    if m > 0 { TurnsAdd(buf, path, Turn(buf, path, offset).offset, m - 1, n); }
  }

  /** A loop that comes back to where it started never ends. */
  lemma {:induction false} CycleNeverEnds(buf: seq<Byte>, path: seq<int>, offset: int, m: nat, n: nat)
    requires m > 0 && Turns(buf, path, offset, m) == Next(offset)
    ensures Turns(buf, path, offset, n).Next?
    decreases n
  {
    if n >= m {
      TurnsAdd(buf, path, offset, m, n - m);
      CycleNeverEnds(buf, path, offset, m, n - m);
    } else if !Turns(buf, path, offset, n).Next? {
      TurnsStay(buf, path, offset, n, m);
    }
  }

  lemma {:induction false} TurnsStay(buf: seq<Byte>, path: seq<int>, offset: int, n: nat, m: nat)
    requires !Turns(buf, path, offset, n).Next? && n <= m
    ensures Turns(buf, path, offset, m) == Turns(buf, path, offset, n)
    decreases n
  {
    hide Turn;
    if n > 0 && Turn(buf, path, offset).Next? { TurnsStay(buf, path, Turn(buf, path, offset).offset, n - 1, m - 1); }
  }

  /** What extracting a named file from an archive of readable entries comes to: the content of
      the first entry of that name; without one, nothing if the bytes stop after the last entry,
      and no end at all if a zero block follows. (Asked for the empty name, it finds an empty file
      in the zero block.) */
  lemma ArchiveAnswers(entries: seq<Entry>, tail: seq<Byte>, path: seq<int>)
    requires forall e :: e in entries ==> ReadableEntry(e)
    requires Trailer(tail) && |Layout(entries[..FirstNamed(entries, path)])| < TWO32 / 2
    ensures var k, buf := FirstNamed(entries, path), Layout(entries) + tail;
            && (k < |entries| ==> Turns(buf, path, 0, k + 1) == Found(entries[k].content))
            && (k == |entries| && tail == [] ==> Turns(buf, path, 0, k + 1) == Missing)
            && (k == |entries| && tail != [] && path == [] ==> Turns(buf, path, 0, k + 1) == Found([]))
            && (k == |entries| && tail != [] && path != [] ==> forall n: nat :: Turns(buf, path, 0, n).Next?)
    ensures Ends(Layout(entries) + tail, path, 0) <==>
            FirstNamed(entries, path) < |entries| || tail == [] || path == []
  {
    hide FirstNamed, Turn, ReadableEntry, Layout, Trailer;
    var k, buf := FirstNamed(entries, path), Layout(entries) + tail;
    assert buf[0..] == buf;
    WalkEntries(buf, 0, entries, tail, path);
    if k == |entries| {
      if tail == [] {
        AtTheEnd(buf, path, |Layout(entries)|);
        TurnsAdd(buf, path, 0, k, 1);
      } else {
        TurnAtZeros(Layout(entries), tail, path);
        TurnsAdd(buf, path, 0, k, 1);
        OneTurn(buf, path, |Layout(entries)|);
        if path != [] {
          forall n: nat ensures Turns(buf, path, 0, n).Next? { CycleNeverEnds(buf, path, 0, k + 1, n); }
        }
      }
    }
  }

  /** The smallest complete archive, of two zero blocks and no entry, sends the loop round forever. */
  lemma EmptyArchiveNeverEnds(path: seq<int>)
    requires path != []
    ensures !Ends(Zeros(1024), path, 0)
  {
    assert Layout([]) + Zeros(1024) == Zeros(1024);
    ArchiveAnswers([], Zeros(1024), path);
  }

  lemma OneTurn(buf: seq<Byte>, path: seq<int>, offset: int)
    ensures Turns(buf, path, offset, 1) == Turn(buf, path, offset)
  {
    var o := Turn(buf, path, offset);
    if o.Next? { assert Turns(buf, path, o.offset, 0) == o; }
  }

  lemma AtTheEnd(buf: seq<Byte>, path: seq<int>, offset: int)
    requires offset >= |buf|
    ensures Turns(buf, path, offset, 1) == Missing
  {
  }

  /** The answer does not depend on how many turns are granted. */
  lemma AnswerUnique(buf: seq<Byte>, path: seq<int>, offset: int, m: nat, n: nat)
    requires !Turns(buf, path, offset, m).Next? && !Turns(buf, path, offset, n).Next?
    ensures Turns(buf, path, offset, m) == Turns(buf, path, offset, n)
  {
    if m <= n { TurnsStay(buf, path, offset, m, n); } else { TurnsStay(buf, path, offset, n, m); }
  }

  // ---------------------------------------------------------------- the fields that ustar writes

  function OctalText(value: nat, digits: nat): (r: seq<Byte>)
    ensures |r| == digits && forall k :: 0 <= k < digits ==> OctalDigit(r[k])
  {
    if digits == 0 then [] else OctalText(value / 8, digits - 1) + [48 + value % 8]
  }

  function Power8(n: nat): nat {
    if n == 0 then 1 else 8 * Power8(n - 1)
  }

  /** A header whose name field is the name in UTF-8 padded with NULs, and whose size field is the size in
      zero-padded octal with a NUL or a space behind it. */
  predicate UstarHeader(header: seq<Byte>, name: seq<int>, size: nat) {
    && |header| == 512 && size < Power8(11)
    && (forall c <- name :: Scalar(c) && c != 0)
    && |EncodeText(name)| <= 100 && header[..100] == EncodeText(name) + Zeros(100 - |EncodeText(name)|)
    && (header[124..136] == OctalText(size, 11) + [0] || header[124..136] == OctalText(size, 11) + [32])
  }

  lemma {:induction false} StripPadded(name: seq<int>, pad: seq<int>)
    requires forall k :: 0 <= k < |name| ==> name[k] != 0
    requires forall k :: 0 <= k < |pad| ==> pad[k] == 0
    ensures StripNul(name + pad) == name
  {
    if name == [] {
      assert name + pad == pad;
      if pad != [] { AllDropped(pad[1..]); }
    } else {
      assert (name + pad)[1..] == name[1..] + pad && (name + pad)[0] == name[0];
      StripPadded(name[1..], pad);
      assert name == [name[0]] + name[1..];
    }
  }

  /** Reading the digits back gives the number they were written for. */
  lemma OctalReadsBack(value: nat, digits: nat, rest: seq<int>)
    requires value < Power8(digits) && (rest == [] || !OctalDigit(rest[0]))
    ensures OctalValue(OctalText(value, digits) + rest, 0) == value
  {
    OctalSplit(OctalText(value, digits), rest, 0);
    OctalWritten(value, digits);
  }

  lemma {:induction false} OctalSplit(text: seq<int>, rest: seq<int>, value: nat)
    requires rest == [] || !OctalDigit(rest[0])
    requires forall k :: 0 <= k < |text| ==> OctalDigit(text[k])
    ensures OctalValue(text + rest, value) == OctalValue(text, value)
    decreases |text|
  {
    if text == [] {
      assert text + rest == rest;
    } else {
      assert (text + rest)[1..] == text[1..] + rest && (text + rest)[0] == text[0];
      OctalSplit(text[1..], rest, 8 * value + (text[0] - 48));
    }
  }

  lemma {:induction false} OctalPush(text: seq<int>, d: int, value: nat)
    requires OctalDigit(d) && forall k :: 0 <= k < |text| ==> OctalDigit(text[k])
    ensures OctalValue(text + [d], value) == 8 * OctalValue(text, value) + (d - 48)
    decreases |text|
  {
    if text == [] {
      assert text + [d] == [d] && [d][1..] == [];
    } else {
      assert (text + [d])[1..] == text[1..] + [d] && (text + [d])[0] == text[0];
      OctalPush(text[1..], d, 8 * value + (text[0] - 48));
    }
  }

  lemma {:induction false} OctalWritten(value: nat, digits: nat)
    requires value < Power8(digits)
    ensures OctalValue(OctalText(value, digits), 0) == value
    decreases digits
  {
    if digits > 0 {
      OctalWritten(value / 8, digits - 1);
      OctalPush(OctalText(value / 8, digits - 1), 48 + value % 8, 0);
    }
  }

  /** A header as ustar writes it reads back as its name and size. */
  lemma HeaderReadsBack(header: seq<Byte>, name: seq<int>, size: nat)
    requires UstarHeader(header, name, size)
    ensures FileName(header) == name
    ensures FileSize(header) == Some(size)
  {
    hide OctalText, Decode, StripNul, OctalValue, Power8, EncodeText, Scalar;
    var pad := Zeros(100 - |EncodeText(name)|);
    TextReadsBack(name, pad);
    AsciiDecodes(pad);
    forall k | 0 <= k < |name| ensures name[k] != 0 { assert name[k] in name; }
    StripPadded(name, pad);
    assert Subarray(header, 0, 100) == header[..100] && Subarray(header, 124, 136) == header[124..136];
    SizeReadsBack(size, 0);
    SizeReadsBack(size, 32);
  }

  lemma SizeReadsBack(size: nat, end: Byte)
    requires size < Power8(11) && (end == 0 || end == 32)
    ensures ParseOctal(StripNul(Decode(OctalText(size, 11) + [end]))) == Some(size)
  {
    hide OctalText, Decode, StripNul, OctalValue, Power8;
    var digits: seq<int> := OctalText(size, 11);
    AsciiDecodes(OctalText(size, 11) + [end]);
    OctalReadsBack(size, 11, []);
    OctalReadsBack(size, 11, [32]);
    assert digits + [] == digits;
    if end == 0 {
      StripPadded(digits, [0]);
    } else {
      StripPadded(digits + [32], []);
      assert digits + [32] + [] == digits + [32];
    }
    var text := if end == 0 then digits else digits + [32];
    assert text[0] == digits[0] && OctalDigit(text[0]);
  }

  /** An entry under a header that ustar prescribes is read, and is found by its name and no other. */
  lemma UstarEntryIsFound(e: Entry, name: seq<int>, path: seq<int>)
    requires UstarHeader(e.header, name, |e.content|)
    ensures ReadableEntry(e) && (Named(e, path) <==> name == path)
  {
    HeaderReadsBack(e.header, name, |e.content|);
  }

  // ---------------------------------------------------------------- header fields that ustar does not write

  predicate Octal(text: seq<int>) {
    forall c <- text :: '0' as int <= c <= '7' as int
  }

  /** What parseInt makes of any text: behind white space and a sign, the longest run of octal digits
      counts, and without one there is no number. */
  lemma ParseOctalSpelled(space: seq<int>, sign: seq<int>, digits: seq<int>, rest: seq<int>)
    requires forall c <- space :: WhiteSpace(c)
    requires sign == [] || sign == ['+' as int] || sign == ['-' as int]
    requires Octal(digits) && (rest != [] ==> !('0' as int <= rest[0] <= '7' as int))
    requires sign == [] && digits == [] && rest != [] ==>
               !WhiteSpace(rest[0]) && rest[0] != '+' as int && rest[0] != '-' as int
    ensures ParseOctal(space + (sign + (digits + rest))) ==
            if digits == [] then None
            else Some(if sign == ['-' as int] then -OctalValue(digits, 0) else OctalValue(digits, 0))
  {
    hide OctalValue;
    var tail := sign + (digits + rest);
    assert digits != [] ==> digits[0] in digits;
    if tail != [] {
      assert tail[0] == if sign != [] then sign[0] else if digits != [] then digits[0] else rest[0];
      assert !WhiteSpace(tail[0]);
    }
    SpaceDropped(space, tail);
    if sign != [] { assert tail[1..] == digits + rest; } else { assert tail == digits + rest; }
    if digits == [] {
      assert digits + rest == rest;
    } else {
      assert (digits + rest)[0] == digits[0];
      assert forall k :: 0 <= k < |digits| ==> digits[k] in digits;
      OctalSplit(digits, rest, 0);
    }
  }

  lemma {:induction false} SpaceDropped(space: seq<int>, tail: seq<int>)
    requires forall c <- space :: WhiteSpace(c)
    requires tail != [] ==> !WhiteSpace(tail[0])
    ensures TrimStart(space + tail, (c: int) => c) == tail
  {
    hide WhiteSpace;
    if space == [] {
      assert space + tail == tail;
    } else {
      assert space[0] in space && forall c <- space[1..] :: c in space;
      assert (space + tail)[0] == space[0] && (space + tail)[1..] == space[1..] + tail;
      SpaceDropped(space[1..], tail);
    }
  }

  lemma OctalPushed(text: seq<int>, d: int)
    requires Octal(text) && '0' as int <= d <= '7' as int
    ensures OctalValue(text + [d], 0) == 8 * OctalValue(text, 0) + (d - '0' as int)
  {
    hide OctalValue;
    assert forall k :: 0 <= k < |text| ==> text[k] in text;
    OctalPush(text, d, 0);
  }

  /** Each octal digit counts by its place. */
  lemma {:induction false} OctalPlaces(d: int, digits: seq<int>)
    requires '0' as int <= d <= '7' as int && Octal(digits)
    ensures OctalValue([d] + digits, 0) == (d - '0' as int) * Power8(|digits|) + OctalValue(digits, 0)
    decreases |digits|
  {
    hide OctalValue, Octal;
    var n := |digits|;
    NoDigits();
    if n == 0 {
      assert digits == [] && [d] + digits == [] + [d];
      OctalPushed([], d);
    } else {
      var front, last := digits[..n - 1], digits[n - 1];
      assert digits == front + [last] && [d] + digits == ([d] + front) + [last];
      assert Octal(front) && Octal([d] + front) && '0' as int <= last <= '7' as int by { OctalParts(d, front, last); }
      OctalPlaces(d, front);
      OctalPushed([d] + front, last);
      OctalPushed(front, last);
      OnePlaceUp(d - '0' as int, Power8(n - 1));
    }
  }

  lemma OctalParts(d: int, front: seq<int>, last: int)
    requires '0' as int <= d <= '7' as int && Octal(front + [last])
    ensures Octal(front) && Octal([d] + front) && '0' as int <= last <= '7' as int
  {
    assert last in front + [last] && forall c <- front :: c in front + [last];
  }

  lemma NoDigits()
    ensures OctalValue([], 0) == 0 && Octal([])
  {
  }

  lemma OnePlaceUp(d: int, place: int)
    ensures 8 * (d * place) == d * (8 * place)
  {
  }

  /** A NUL takes the rest of its line with it, and what follows is treated alike. */
  lemma {:induction false} StripNulSpelled(before: seq<int>, line: seq<int>, rest: seq<int>)
    requires 0 !in before && (forall c <- line :: !LineTerminator(c)) && (rest != [] ==> LineTerminator(rest[0]))
    ensures StripNul(before + ([0] + (line + rest))) == before + StripNul(rest)
    ensures StripNul(before) == before
  {
    var tail := [0] + (line + rest);
    if before == [] {
      assert before + tail == tail && tail[1..] == line + rest;
      LineDropped(line, rest);
      assert before + StripNul(rest) == StripNul(rest);
    } else {
      assert before[0] in before && forall c <- before[1..] :: c in before;
      assert (before + tail)[0] == before[0] && (before + tail)[1..] == before[1..] + tail;
      assert before == [before[0]] + before[1..];
      StripNulSpelled(before[1..], line, rest);
    }
  }

  lemma {:induction false} LineDropped(line: seq<int>, rest: seq<int>)
    requires (forall c <- line :: !LineTerminator(c)) && (rest != [] ==> LineTerminator(rest[0]))
    ensures DropLine(line + rest) == rest
  {
    hide LineTerminator;
    if line == [] {
      assert line + rest == rest;
    } else {
      assert line[0] in line && forall c <- line[1..] :: c in line;
      assert (line + rest)[0] == line[0] && (line + rest)[1..] == line[1..] + rest;
      LineDropped(line[1..], rest);
    }
  }

  /** The bitwise and leaves the start of the block, of the number taken modulo 2^32 into the range of
      32-bit two's complement. */
  lemma BlockStartSpelled(n: int) returns (m: int)
    ensures -0x8000_0000 <= m < 0x8000_0000 && (n - m) % 0x1_0000_0000 == 0
    ensures BlockStart(n) % 512 == 0 && 0 <= m - BlockStart(n) < 512
  {
    m := ToInt32(n);
    WrapsAround(n);
  }

  lemma WrapsAround(n: int)
    ensures (n - ToInt32(n)) % TWO32 == 0 && -0x8000_0000 <= ToInt32(n) < 0x8000_0000
  {
    var q, m := n / TWO32, n % TWO32;
    assert n == q * TWO32 + m;
    if m >= TWO32 / 2 { assert n - ToInt32(n) == (q + 1) * TWO32; } else { assert n - ToInt32(n) == q * TWO32; }
  }
}
