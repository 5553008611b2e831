/** UTF-8 as a buffer's toString reads it: ill-formed bytes become replacement characters, one for
    each longest piece that could still have begun a character. */
module Utf8 {
  import opened Strings

  type Byte = x: int | 0 <= x < 256

  const REPLACEMENT := 0xFFFD

  /** How many bytes a character takes that starts with lead, or 0 where none does. */
  function Length(lead: Byte): nat {
    if lead < 0x80 then 1
    else if 0xC2 <= lead < 0xE0 then 2
    else if 0xE0 <= lead < 0xF0 then 3
    else if 0xF0 <= lead < 0xF5 then 4
    else 0
  }

  /** b can be byte number k of a character that starts with lead. */
  predicate Continues(lead: Byte, k: nat, b: Byte) {
    && 0x80 <= b < 0xC0
    && (k == 1 ==>
          && (lead == 0xE0 ==> 0xA0 <= b) && (lead == 0xED ==> b < 0xA0)
          && (lead == 0xF0 ==> 0x90 <= b) && (lead == 0xF4 ==> b < 0x90))
  }

  /** How far the bytes belong together, of which the first k do. */
  function Extent(bytes: seq<Byte>, k: nat): (n: nat)
    requires 1 <= k <= |bytes|
    ensures k <= n <= |bytes|
    decreases |bytes| - k
  {
    if k < Length(bytes[0]) && k < |bytes| && Continues(bytes[0], k, bytes[k]) then Extent(bytes, k + 1) else k
  }

  /** The code point that a whole character stands for. */
  function Code(bytes: seq<Byte>): int {
    if |bytes| == 1 then bytes[0]
    else if |bytes| == 2 then (bytes[0] - 0xC0) * 64 + (bytes[1] - 0x80)
    else if |bytes| == 3 then ((bytes[0] - 0xE0) * 64 + (bytes[1] - 0x80)) * 64 + (bytes[2] - 0x80)
    else if |bytes| == 4 then
      (((bytes[0] - 0xF0) * 64 + (bytes[1] - 0x80)) * 64 + (bytes[2] - 0x80)) * 64 + (bytes[3] - 0x80)
    else REPLACEMENT
  }

  /** The first character, and the number of its bytes. */
  function First(bytes: seq<Byte>): (r: (int, nat))
    requires bytes != []
    ensures 1 <= r.1 <= |bytes|
  {
    var n := Extent(bytes, 1);
    (if n == Length(bytes[0]) then Code(bytes[..n]) else REPLACEMENT, n)
  }

  /** buffer.toString("utf-8"), as code points. */
  function Decode(bytes: seq<Byte>): seq<int> {
    if bytes == [] then []
    else
      var (c, n) := First(bytes);
      [c] + Decode(bytes[n..])
  }

  predicate Scalar(c: int) {
    0 <= c < 0xD800 || 0xE000 <= c < 0x110000
  }

  function Encode(c: int): seq<Byte>
    requires Scalar(c)
  {
    if c < 0x80 then [c]
    else if c < 0x800 then [0xC0 + c / 64, 0x80 + c % 64]
    else if c < 0x10000 then [0xE0 + c / 64 / 64, 0x80 + c / 64 % 64, 0x80 + c % 64]
    else [0xF0 + c / 64 / 64 / 64, 0x80 + c / 64 / 64 % 64, 0x80 + c / 64 % 64, 0x80 + c % 64]
  }

  function EncodeText(text: seq<int>): seq<Byte>
    requires forall c <- text :: Scalar(c)
  {
    if text == [] then [] else Encode(text[0]) + EncodeText(text[1..])
  }

  lemma {:induction false} EncodedIsWhole(c: int)
    requires Scalar(c)
    ensures var e := Encode(c);
            && e != [] && |e| == Length(e[0]) && Code(e) == c
            && (forall k :: 1 <= k < |e| ==> Continues(e[0], k, e[k]))
  {
    if c < 0x800 {
    } else if c < 0x10000 {
      ThreeBytes(c, c / 64, c / 64 / 64);
    } else {
      FourBytes(c, c / 64, c / 64 / 64, c / 64 / 64 / 64);
    }
  }

  lemma {:induction false} ThreeBytes(c: int, q: int, p: int)
    requires 0x800 <= c < 0x10000 && Scalar(c) && q == c / 64 && p == q / 64
    ensures 0 <= p < 16 && c == (p * 64 + q % 64) * 64 + c % 64
    ensures (p == 0 ==> q % 64 >= 32) && (p == 13 ==> q % 64 < 32)
  {
  }

  lemma {:induction false} FourBytes(c: int, q: int, p: int, o: int)
    requires 0x10000 <= c < 0x110000 && q == c / 64 && p == q / 64 && o == p / 64
    ensures 0 <= o < 5 && c == ((o * 64 + p % 64) * 64 + q % 64) * 64 + c % 64
    ensures (o == 0 ==> p % 64 >= 16) && (o == 4 ==> p % 64 < 16)
  {
  }

  lemma {:induction false} ExtentOfWhole(e: seq<Byte>, rest: seq<Byte>, k: nat)
    requires 1 <= k <= |e| && |e| == Length(e[0]) && forall j :: 1 <= j < |e| ==> Continues(e[0], j, e[j])
    ensures Extent(e + rest, k) == |e|
    decreases |e| - k
  {
    if k < |e| {
      assert (e + rest)[k] == e[k] && (e + rest)[0] == e[0];
      ExtentOfWhole(e, rest, k + 1);
    }
  }

  lemma {:induction false} CharacterReadsBack(c: int, rest: seq<Byte>)
    requires Scalar(c)
    ensures Encode(c) != [] && First(Encode(c) + rest) == (c, |Encode(c)|)
  {
    hide Encode, Code, Continues, Length;
    var e := Encode(c);
    EncodedIsWhole(c);
    ExtentOfWhole(e, rest, 1);
    assert (e + rest)[..|e|] == e;
  }

  lemma DecodeFirst(e: seq<Byte>, more: seq<Byte>, c: int)
    requires e != [] && First(e + more) == (c, |e|)
    ensures Decode(e + more) == [c] + Decode(more)
  {
    hide First;
    assert (e + more)[|e|..] == more;
  }

  /** Text that was written in UTF-8 reads back, whatever bytes follow it. */
  lemma {:induction false} TextReadsBack(text: seq<int>, rest: seq<Byte>)
    requires forall c <- text :: Scalar(c)
    ensures Decode(EncodeText(text) + rest) == text + Decode(rest)
  {
    hide Encode, First, Scalar, Decode;
    if text == [] {
      assert EncodeText(text) + rest == rest;
    } else {
      assert text[0] in text && forall c <- text[1..] :: c in text;
      var e, more := Encode(text[0]), EncodeText(text[1..]) + rest;
      CharacterReadsBack(text[0], more);
      TextReadsBack(text[1..], rest);
      Associates(e, EncodeText(text[1..]), rest);
      DecodeFirst(e, more, text[0]);
      Associates([text[0]], text[1..], Decode(rest));
      assert text == [text[0]] + text[1..];
    }
  }

  lemma FirstOfAscii(bytes: seq<Byte>)
    requires bytes != [] && bytes[0] < 0x80
    ensures First(bytes) == (bytes[0] as int, 1)
  {
    assert bytes[..1] == [bytes[0]];
  }

  /** ASCII reads as itself, whatever bytes follow it. */
  lemma {:induction false} AsciiReads(bytes: seq<Byte>, rest: seq<Byte>)
    requires forall b <- bytes :: b < 0x80
    ensures Decode(bytes + rest) == bytes + Decode(rest)
  {
    hide First;
    if bytes == [] {
      assert bytes + rest == rest;
    } else {
      assert (bytes + rest)[1..] == bytes[1..] + rest && (bytes + rest)[0] == bytes[0];
      assert bytes[0] in bytes && forall b <- bytes[1..] :: b in bytes;
      AsciiReads(bytes[1..], rest);
      FirstOfAscii(bytes + rest);
    }
  }

  // ---------------------------------------------------------------- bytes that are not text

  /** The bytes begin some character. */
  ghost predicate Begins(bytes: seq<Byte>) {
    exists c :: Scalar(c) && bytes <= Encode(c)
  }

  predicate Whole(e: seq<Byte>) {
    e != [] && |e| == Length(e[0]) && forall k :: 1 <= k < |e| ==> Continues(e[0], k, e[k])
  }

  lemma WholeIsEncoded(e: seq<Byte>)
    requires Whole(e)
    ensures Scalar(Code(e)) && Encode(Code(e)) == e
  {
    if |e| == 1 {
      assert e == [e[0]];
    } else if |e| == 2 {
      assert Continues(e[0], 1, e[1]);
      assert e == [e[0], e[1]];
    } else if |e| == 3 {
      WholeOfThree(e);
    } else {
      WholeOfFour(e);
    }
  }

  lemma WholeOfThree(e: seq<Byte>)
    requires Whole(e) && |e| == 3
    ensures Scalar(Code(e)) && Encode(Code(e)) == e
  {
    assert Continues(e[0], 1, e[1]) && Continues(e[0], 2, e[2]);
    assert e == [e[0], e[1], e[2]];
    Places(e[0] - 0xE0, e[1] - 0x80, e[2] - 0x80);
  }

  lemma WholeOfFour(e: seq<Byte>)
    requires Whole(e) && |e| == 4
    ensures Scalar(Code(e)) && Encode(Code(e)) == e
  {
    assert Continues(e[0], 1, e[1]) && Continues(e[0], 2, e[2]) && Continues(e[0], 3, e[3]);
    hide Continues;
    assert e == [e[0], e[1], e[2], e[3]];
    var top: int := (e[0] as int - 0xF0) * 64 + (e[1] - 0x80);
    Places(top, e[2] - 0x80, e[3] - 0x80);
    assert top / 64 == e[0] - 0xF0 && top % 64 == e[1] - 0x80;
  }

  lemma Places(a: nat, b: int, c: int)
    requires 0 <= b < 64 && 0 <= c < 64
    ensures var n := (a * 64 + b) * 64 + c; n % 64 == c && n / 64 == a * 64 + b && n / 64 % 64 == b && n / 64 / 64 == a
  {
  }

  lemma {:induction false} ExtentHolds(bytes: seq<Byte>, k: nat)
    requires 1 <= k <= |bytes|
    ensures var n := Extent(bytes, k);
            && (forall j :: k <= j < n ==> Continues(bytes[0], j, bytes[j]))
            && (if k <= Length(bytes[0]) then n <= Length(bytes[0]) else n == k)
            && (n < Length(bytes[0]) && n < |bytes| ==> !Continues(bytes[0], n, bytes[n]))
    decreases |bytes| - k
  {
    hide Continues, Length;
    if k < Length(bytes[0]) && k < |bytes| && Continues(bytes[0], k, bytes[k]) { ExtentHolds(bytes, k + 1); }
  }

  /** Two bytes or more of a character can be completed. */
  lemma Completed(bytes: seq<Byte>)
    requires 2 <= |bytes| <= Length(bytes[0]) && forall k :: 1 <= k < |bytes| ==> Continues(bytes[0], k, bytes[k])
    ensures Begins(bytes)
  {
    hide Code, Encode, Length;
    var more: seq<Byte> := seq(Length(bytes[0]) - |bytes|, k => 0x80);
    var e := bytes + more;
    assert forall k :: |bytes| <= k < |e| ==> e[k] == 0x80;
    assert Whole(e);
    WholeIsEncoded(e);
    assert bytes <= e;
  }

  lemma BeginningContinues(bytes: seq<Byte>, c: int)
    requires bytes != [] && Scalar(c) && bytes <= Encode(c)
    ensures |bytes| <= Length(bytes[0])
    ensures forall k :: 1 <= k < |bytes| ==> Continues(bytes[0], k, bytes[k])
  {
    hide Encode, Code, Length, Continues;
    EncodedIsWhole(c);
    assert forall k :: 0 <= k < |bytes| ==> bytes[k] == Encode(c)[k];
  }

  /** What is read first: the character that the bytes spell, if they spell one, and else a single
      replacement for the longest piece that begins some character, or for one byte if none does. */
  lemma FirstSpelled(bytes: seq<Byte>)
    requires bytes != []
    ensures var (c, n) := First(bytes);
            if exists s :: Scalar(s) && Encode(s) <= bytes then Scalar(c) && Encode(c) == bytes[..n]
            else
              && c == REPLACEMENT && (n == 1 || Begins(bytes[..n]))
              && (n < |bytes| ==> !Begins(bytes[..n + 1]))
  {
    hide Encode, Code, Length, Continues, Scalar, Extent;
    var (c, n) := First(bytes);
    if s :| Scalar(s) && Encode(s) <= bytes {
      CharacterReadsBack(s, bytes[|Encode(s)|..]);
      assert bytes == Encode(s) + bytes[|Encode(s)|..];
    } else {
      ExtentHolds(bytes, 1);
      if n == Length(bytes[0]) {
        assert Whole(bytes[..n]);
        WholeIsEncoded(bytes[..n]);
      }
      if n >= 2 { Completed(bytes[..n]); }
      if n < |bytes| && Begins(bytes[..n + 1]) {
        var s :| Scalar(s) && bytes[..n + 1] <= Encode(s);
        BeginningContinues(bytes[..n + 1], s);
      }
    }
  }
}
