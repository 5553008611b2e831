/** The characters of a JSON location, and the strings that its quoted keys denote and are written as. */
module JsonSpelling {
  import opened Wrappers
  import opened JsonPath

  // ---------------------------------------------------------------- characters and numerals

  predicate Between(low: char, c: Unit, high: char) {
    low as int <= c <= high as int
  }

  predicate Is(c: Unit, ch: char) {
    c == ch as int
  }

  /** Letters, the underscore and the dollar sign start a bare key, and digits may follow. */
  lemma CharactersSpelled(c: Unit)
    ensures KeyStart(c) <==> Between('A', c, 'Z') || Between('a', c, 'z') || Is(c, '_') || Is(c, '$')
    ensures KeyPart(c) <==> KeyStart(c) || Between('0', c, '9')
    ensures Digit(c) <==> Between('0', c, '9')
    ensures Is(DOT, '.') && Is(OPEN, '[') && Is(CLOSE, ']') && Is(QUOTE, '"') && Is(BACKSLASH, '\\') && Is(DOLLAR, '$')
    ensures MAX_SAFE_INTEGER == 9007199254740991
  {
  }

  function Power10(n: nat): nat {
    if n == 0 then 1 else 10 * Power10(n - 1)
  }

  /** The first digit of a numeral counts by its place. */
  lemma {:induction false} NumeralPlaces(d: Unit, rest: Text)
    ensures DecimalValue([d] + rest) == (d - '0' as int) * Power10(|rest|) + DecimalValue(rest)
    decreases |rest|
  {
    hide DecimalValue;
    var n := |rest|;
    if n == 0 {
      assert rest == [] && [d] + rest == [] + [d];
      DecimalPush([], d);
    } else {
      var front, last := rest[..n - 1], rest[n - 1];
      assert [d] + rest == ([d] + front) + [last] && rest == front + [last];
      NumeralPlaces(d, front);
      DecimalPush([d] + front, last);
      DecimalPush(front, last);
      OnePlaceUp(d as int - '0' as int, Power10(n - 1));
    }
  }

  lemma DecimalPush(s: Text, d: Unit)
    ensures DecimalValue(s + [d]) == 10 * DecimalValue(s) + (d as int - '0' as int)
    ensures DecimalValue([]) == 0
  {
    assert (s + [d])[..|s|] == s;
  }

  lemma OnePlaceUp(d: int, place: int)
    ensures 10 * (d * place) == d * (10 * place)
  {
  }

  // ---------------------------------------------------------------- one unit of a JSON string

  /** h is the hexadecimal digit of n, small or capital. */
  predicate Hexadecimal(h: Unit, n: nat) {
    || (n < 10 && h == '0' as int + n)
    || (10 <= n < 16 && (h == 'a' as int + n - 10 || h == 'A' as int + n - 10))
  }

  /** The escapes of one character that section 7 of RFC 8259 lists. */
  predicate ShortEscape(e: Unit, c: Unit) {
    || (Is(e, '"') && Is(c, '"')) || (Is(e, '\\') && Is(c, '\\')) || (Is(e, '/') && Is(c, '/'))
    || (Is(e, 'b') && c == 0x8) || (Is(e, 'f') && c == 0xC) || (Is(e, 'n') && c == 0xA)
    || (Is(e, 'r') && c == 0xD) || (Is(e, 't') && c == 0x9)
  }

  predicate CodeEscape(piece: Text, c: Unit) {
    && |piece| == 6 && Is(piece[0], '\\') && Is(piece[1], 'u')
    && Hexadecimal(piece[2], c / 0x1000) && Hexadecimal(piece[3], c / 0x100 % 0x10)
    && Hexadecimal(piece[4], c / 0x10 % 0x10) && Hexadecimal(piece[5], c % 0x10)
  }

  /** piece is one of the ways to write the unit c inside a JSON string. */
  predicate Writes(piece: Text, c: Unit) {
    || (piece == [c] && c >= 0x20 && !Is(c, '"') && !Is(c, '\\'))
    || (|piece| == 2 && Is(piece[0], '\\') && ShortEscape(piece[1], c))
    || CodeEscape(piece, c)
  }

  /** body writes key, unit by unit. */
  ghost predicate WritesAll(pieces: seq<Text>, key: Text) {
    |pieces| == |key| && forall k :: 0 <= k < |key| ==> Writes(pieces[k], key[k])
  }

  lemma HexadecimalDigit(h: Unit, n: nat)
    ensures n < 16 ==> (HexDigit(h) == n <==> Hexadecimal(h, n))
    ensures HexDigit(h) < 16 ==> Hexadecimal(h, HexDigit(h))
  {
  }

  lemma ShortEscapeIsSimple(e: Unit, c: Unit)
    ensures SimpleEscape(e) == Some(c) <==> ShortEscape(e, c)
  {
  }

  lemma Hex4Spelled(s: Text, c: Unit)
    requires |s| >= 4
    ensures Hex4(s) && Hex4Value(s) == c <==>
            && Hexadecimal(s[0], c / 0x1000) && Hexadecimal(s[1], c / 0x100 % 0x10)
            && Hexadecimal(s[2], c / 0x10 % 0x10) && Hexadecimal(s[3], c % 0x10)
  {
    hide Hexadecimal, HexDigit;
    HexPlaces(c);
    HexadecimalDigit(s[0], c / 0x1000);
    HexadecimalDigit(s[1], c / 0x100 % 0x10);
    HexadecimalDigit(s[2], c / 0x10 % 0x10);
    HexadecimalDigit(s[3], c % 0x10);
    if Hex4(s) { PlacesUnique(HexDigit(s[0]), HexDigit(s[1]), HexDigit(s[2]), HexDigit(s[3])); }
  }

  lemma PlacesUnique(a: nat, b: nat, d: nat, e: nat)
    requires a < 16 && b < 16 && d < 16 && e < 16
    ensures var c := ((a * 16 + b) * 16 + d) * 16 + e;
            c / 0x1000 == a && c / 0x100 % 0x10 == b && c / 0x10 % 0x10 == d && c % 0x10 == e
  {
  }

  /** What stands in front of a string that can be read is read as its first unit. */
  lemma WrittenUnitReads(piece: Text, c: Unit, rest: Text)
    requires Writes(piece, c)
    ensures Unescape(piece + rest) == Prepend(c, Unescape(rest))
  {
    hide ShortEscape, SimpleEscape, Hexadecimal, HexDigit, Unescape, Hex4, Hex4Value;
    if piece == [c] && c >= 0x20 && !Is(c, '"') && !Is(c, '\\') {
      UnescapePlain(c, rest);
    } else if |piece| == 2 && Is(piece[0], '\\') && ShortEscape(piece[1], c) {
      ShortEscapeIsSimple(piece[1], c);
      assert piece == [BACKSLASH, piece[1]];
      UnescapeSimple(piece[1], rest);
    } else {
      var s := piece + rest;
      assert s[2..][0] == piece[2] && s[2..][1] == piece[3] && s[2..][2] == piece[4] && s[2..][3] == piece[5];
      Hex4Spelled(s[2..], c);
      assert s[6..] == rest && s[0] == BACKSLASH && s[1] == 117;
      UnescapeCode(s, c);
    }
  }

  lemma UnescapeCode(s: Text, c: Unit)
    requires |s| >= 6 && s[0] == BACKSLASH && s[1] == 117 && Hex4(s[2..]) && Hex4Value(s[2..]) == c
    ensures Unescape(s) == Prepend(c, Unescape(s[6..]))
  {
    hide Hex4, Hex4Value;
  }

  /** The first unit of a string that can be read, and what writes it. */
  lemma FirstUnit(s: Text) returns (n: nat, c: Unit)
    requires s != [] && Unescape(s).Some?
    ensures 0 < n <= |s| && Writes(s[..n], c)
    ensures Unescape(s[n..]).Some? && Unescape(s) == Prepend(c, Unescape(s[n..]))
  {
    hide ShortEscape, Hexadecimal, HexDigit, Hex4Value;
    if s[0] != BACKSLASH {
      n, c := 1, s[0];
      assert s[..1] == [c];
    } else if SimpleEscape(s[1]).Some? {
      n, c := 2, SimpleEscape(s[1]).value;
      ShortEscapeIsSimple(s[1], c);
    } else {
      n, c := 6, Hex4Value(s[2..]);
      Hex4Spelled(s[2..], c);
      assert forall k :: 2 <= k < 6 ==> s[..6][k] == s[2..][k - 2];
    }
  }

  lemma {:induction false} WrittenReads(pieces: seq<Text>, key: Text)
    requires WritesAll(pieces, key)
    ensures Unescape(Concat(pieces)) == Some(key)
    decreases |key|
  {
    hide Writes, Unescape;
    if key == [] {
      EmptyReads();
    } else {
      WrittenReads(pieces[1..], key[1..]);
      WrittenUnitReads(pieces[0], key[0], Concat(pieces[1..]));
      assert key == [key[0]] + key[1..];
    }
  }

  lemma {:induction false} ReadIsWritten(body: Text) returns (pieces: seq<Text>)
    requires Unescape(body).Some?
    ensures Concat(pieces) == body && WritesAll(pieces, Unescape(body).value)
    decreases |body|
  {
    hide Writes, Unescape, Concat;
    if body == [] {
      EmptyReads();
      pieces := [];
      NothingSpelled();
    } else {
      var n, c := FirstUnit(body);
      var tail := ReadIsWritten(body[n..]);
      pieces := [body[..n]] + tail;
      ConcatCons(body[..n], tail);
    }
  }

  /** The text between the quotes of a key denotes exactly the keys that it writes unit by unit. */
  lemma JsonStringSpelled(body: Text, key: Text)
    ensures Unescape(body) == Some(key) <==> exists pieces :: Concat(pieces) == body && WritesAll(pieces, key)
  {
    if Unescape(body) == Some(key) { var pieces := ReadIsWritten(body); }
    if pieces :| Concat(pieces) == body && WritesAll(pieces, key) { WrittenReads(pieces, key); }
  }

  // ---------------------------------------------------------------- how keys are written

  /** Half of a surrogate pair without the other half next to it. */
  predicate Lone(key: Text, k: nat)
    requires k < |key|
  {
    || (0xD800 <= key[k] < 0xDC00 && !(k + 1 < |key| && 0xDC00 <= key[k + 1] < 0xE000))
    || (0xDC00 <= key[k] < 0xE000 && !(k > 0 && 0xD800 <= key[k - 1] < 0xDC00))
  }

  /** As JSON.stringify writes unit k: by code where it must, by a short escape if there is one, and
      as itself otherwise. */
  predicate Stringified(piece: Text, key: Text, k: nat)
    requires k < |key|
  {
    var c := key[k];
    if c == 8 then piece == ['\\' as int, 'b' as int]
    else if c == 9 then piece == ['\\' as int, 't' as int]
    else if c == 10 then piece == ['\\' as int, 'n' as int]
    else if c == 12 then piece == ['\\' as int, 'f' as int]
    else if c == 13 then piece == ['\\' as int, 'r' as int]
    else if Is(c, '"') || Is(c, '\\') then piece == ['\\' as int, c]
    else if c < 0x20 || Lone(key, k) then CodeEscape(piece, c) && forall u <- piece[2..] :: !Between('A', u, 'F')
    else piece == [c]
  }

  lemma UnicodeEscapeSpelled(c: Unit)
    ensures CodeEscape(UnicodeEscape(c), c) && forall u <- UnicodeEscape(c)[2..] :: !Between('A', u, 'F')
  {
    HexPlaces(c);
  }

  ghost predicate StringifiedFrom(pieces: seq<Text>, key: Text, k: nat) {
    k + |pieces| == |key| && forall i :: 0 <= i < |pieces| ==> Stringified(pieces[i], key, k + i)
  }

  lemma StringifiedCons(piece: Text, tail: seq<Text>, key: Text, k: nat)
    requires k < |key| && Stringified(piece, key, k) && StringifiedFrom(tail, key, k + 1)
    ensures StringifiedFrom([piece] + tail, key, k)
  {
    hide Stringified;
    forall i | 0 <= i < |[piece] + tail|
      ensures Stringified(([piece] + tail)[i], key, k + i)
    {
      if i > 0 { assert Stringified(tail[i - 1], key, k + 1 + (i - 1)); }
    }
  }

  lemma {:induction false} WrittenFrom(key: Text, k: nat) returns (pieces: seq<Text>)
    requires k <= |key|
    requires k < |key| && 0xDC00 <= key[k] < 0xE000 ==> !(k > 0 && 0xD800 <= key[k - 1] < 0xDC00)
    ensures Concat(pieces) == Escaped(key[k..]) && StringifiedFrom(pieces, key, k)
    decreases |key| - k
  {
    hide CodeEscape, UnicodeEscape, Concat, StringifiedFrom;
    if k == |key| {
      pieces := [];
      NothingSpelled();
      NothingStringified(key);
    } else {
      var rest := key[k..];
      assert rest[0] == key[k] && rest[1..] == key[k + 1..];
      if HighSurrogate(key[k]) && k + 1 < |key| && LowSurrogate(key[k + 1]) {
        assert rest[1] == key[k + 1] && rest[2..] == key[k + 2..];
        var tail := WrittenFrom(key, k + 2);
        var low, high := [key[k + 1]], [key[k]];
        pieces := [high] + ([low] + tail);
        ConcatCons(high, [low] + tail);
        ConcatCons(low, tail);
        assert high + (low + Concat(tail)) == [key[k], key[k + 1]] + Concat(tail);
        assert Stringified(high, key, k) && Stringified(low, key, k + 1);
        StringifiedCons(low, tail, key, k + 1);
        StringifiedCons(high, [low] + tail, key, k);
      } else {
        hide Stringified, Escaped;
        var tail := WrittenFrom(key, k + 1);
        var piece := FirstPiece(key, k);
        pieces := [piece] + tail;
        ConcatCons(piece, tail);
        StringifiedCons(piece, tail, key, k);
      }
    }
  }

  lemma NothingStringified(key: Text)
    ensures StringifiedFrom([], key, |key|)
  {
  }

  lemma FirstPiece(key: Text, k: nat) returns (piece: Text)
    requires k < |key| && !(HighSurrogate(key[k]) && k + 1 < |key| && LowSurrogate(key[k + 1]))
    requires 0xDC00 <= key[k] < 0xE000 ==> !(k > 0 && 0xD800 <= key[k - 1] < 0xDC00)
    ensures Stringified(piece, key, k) && Escaped(key[k..]) == piece + Escaped(key[k + 1..])
  {
    hide CodeEscape, UnicodeEscape;
    var rest, c := key[k..], key[k];
    assert rest[0] == c && rest[1..] == key[k + 1..] && (|rest| > 1 ==> rest[1] == key[k + 1]);
    UnicodeEscapeSpelled(c);
    piece := if c == 8 then [BACKSLASH, 98] else if c == 9 then [BACKSLASH, 116] else if c == 10 then [BACKSLASH, 110]
             else if c == 12 then [BACKSLASH, 102] else if c == 13 then [BACKSLASH, 114]
             else if c == QUOTE || c == BACKSLASH then [BACKSLASH, c]
             else if c < 32 || HighSurrogate(c) || LowSurrogate(c) then UnicodeEscape(c)
             else [c];
  }

  /** A key that is an identifier is written behind a dot, and any other between quotes, unit by unit. */
  lemma KeyWritten(key: Text) returns (pieces: seq<Text>)
    ensures if && key != [] && !(key == ['$' as int]) && !Between('0', key[0], '9')
               && forall c <- key :: || Between('A', c, 'Z') || Between('a', c, 'z') || Is(c, '_') || Is(c, '$')
                                     || Between('0', c, '9')
            then SegmentText(Key(key)) == ['.' as int] + key
            else && SegmentText(Key(key)) == ['[' as int, '"' as int] + Concat(pieces) + ['"' as int, ']' as int]
                 && StringifiedFrom(pieces, key, 0)
  {
    hide Stringified, Escaped;
    pieces := WrittenFrom(key, 0);
    assert key[0..] == key;
    if key != [] { assert key[0] in key; }
  }

  /** An index is written in decimal, between brackets and without leading zeros. */
  lemma IndexWritten(index: nat) returns (digits: Text)
    ensures SegmentText(Index(index)) == ['[' as int] + digits + [']' as int]
    ensures digits != [] && (forall c <- digits :: Between('0', c, '9')) && (Is(digits[0], '0') ==> |digits| == 1)
    ensures DecimalValue(digits) == index
  {
    digits := Decimal(index);
  }
}
