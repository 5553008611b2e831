/** jsonPathToSegments, and segmentsToJsonPath that writes what it reads. */
module JsonPath {
  import opened Wrappers
  import Strings

  /** A UTF-16 code unit; JavaScript strings are sequences of them. */
  type Unit = x: int | 0 <= x < 0x10000
  type Text = seq<Unit>

  datatype Segment = Key(key: Text) | Index(index: nat)

  const MAX_SAFE_INTEGER: nat := 0x1F_FFFF_FFFF_FFFF

  const DOT: Unit := 46
  const OPEN: Unit := 91
  const CLOSE: Unit := 93
  const QUOTE: Unit := 34
  const BACKSLASH: Unit := 92
  const DOLLAR: Unit := 36

  // ---------------------------------------------------------------- characters

  predicate Digit(c: Unit) {
    48 <= c <= 57
  }

  predicate KeyStart(c: Unit) {
    65 <= c <= 90 || 97 <= c <= 122 || c == 95 || c == DOLLAR
  }

  predicate KeyPart(c: Unit) {
    KeyStart(c) || Digit(c)
  }

  /** The value of a hexadecimal digit, or 16. */
  function HexDigit(c: Unit): (r: nat)
    ensures r <= 16
  {
    if Digit(c) then c - 48 else if 97 <= c <= 102 then c - 87 else if 65 <= c <= 70 then c - 55 else 16
  }

  // ---------------------------------------------------------------- reading

  function Trim(s: Text): Text {
    Strings.Trim(s, (c: Unit) => c as int)
  }

  /** How many units at the front satisfy the class of an identifier part. */
  function KeyLength(s: Text): (n: nat)
    ensures n <= |s| && (forall k :: 0 <= k < n ==> KeyPart(s[k])) && (n < |s| ==> !KeyPart(s[n]))
  {
    if s == [] || !KeyPart(s[0]) then 0 else 1 + KeyLength(s[1..])
  }

  function DigitsLength(s: Text): (n: nat)
    ensures n <= |s| && (forall k :: 0 <= k < n ==> Digit(s[k])) && (n < |s| ==> !Digit(s[n]))
  {
    if s == [] || !Digit(s[0]) then 0 else 1 + DigitsLength(s[1..])
  }

  /** Where the first quote is that no backslash escapes. A backslash takes the next unit with it,
      which must not end a line. */
  function ClosingQuote(s: Text): (r: Option<nat>)
    ensures r.Some? ==> r.value < |s| && s[r.value] == QUOTE
    decreases |s|
  {
    if s == [] then None
    else if s[0] == QUOTE then Some(0)
    else if s[0] == BACKSLASH then
      if |s| < 2 || Strings.LineTerminator(s[1]) then None
      else match ClosingQuote(s[2..]) case None => None case Some(k) => Some(k + 2)
    else match ClosingQuote(s[1..]) case None => None case Some(k) => Some(k + 1)
  }

  /** The pieces that PATH_SEGMENT captures, and the length of the whole match. */
  datatype Match =
    | NoMatch
    | BareKey(key: Text, whole: nat)
    | Number(digits: Text, whole: nat)
    | Quoted(body: Text, whole: nat)

  function MatchSegment(s: Text): (m: Match)
    ensures !m.NoMatch? ==> 0 < m.whole <= |s|
  {
    if |s| >= 2 && s[0] == DOT && KeyStart(s[1]) then
      var n := KeyLength(s[1..]);
      BareKey(s[1..n + 1], n + 1)
    else if |s| >= 2 && s[0] == OPEN && Digit(s[1]) then
      var n := if s[1] == 48 then 1 else DigitsLength(s[1..]);
      if n + 1 < |s| && s[n + 1] == CLOSE then Number(s[1..n + 1], n + 2) else NoMatch
    else if |s| >= 2 && s[0] == OPEN && s[1] == QUOTE then
      match ClosingQuote(s[2..])
      case None => NoMatch
      case Some(k) => if k + 3 < |s| && s[k + 3] == CLOSE then Quoted(s[2..k + 2], k + 4) else NoMatch
    else NoMatch
  }

  function DecimalValue(s: Text): int {
    if s == [] then 0 else 10 * DecimalValue(s[..|s| - 1]) + (s[|s| - 1] as int - 48)
  }

  /** What one unit after a backslash stands for, by section 7 of RFC 8259. */
  function SimpleEscape(c: Unit): Option<Unit> {
    if c == QUOTE || c == BACKSLASH || c == 47 then Some(c)
    else if c == 98 then Some(8)
    else if c == 102 then Some(12)
    else if c == 110 then Some(10)
    else if c == 114 then Some(13)
    else if c == 116 then Some(9)
    else None
  }

  predicate Hex4(s: Text) {
    |s| >= 4 && forall k :: 0 <= k < 4 ==> HexDigit(s[k]) < 16
  }

  function Hex4Value(s: Text): Unit
    requires Hex4(s)
  {
    ((HexDigit(s[0]) * 16 + HexDigit(s[1])) * 16 + HexDigit(s[2])) * 16 + HexDigit(s[3])
  }

  function Prepend(c: Unit, r: Option<Text>): Option<Text> {
    match r case None => None case Some(t) => Some([c] + t)
  }

  /** JSON.parse on a quoted string, without its quotes. */
  function Unescape(s: Text): Option<Text>
    decreases |s|
  {
    if s == [] then Some([])
    else if s[0] == BACKSLASH then
      if |s| < 2 then None
      else if SimpleEscape(s[1]).Some? then Prepend(SimpleEscape(s[1]).value, Unescape(s[2..]))
      else if s[1] == 117 && Hex4(s[2..]) then Prepend(Hex4Value(s[2..]), Unescape(s[6..]))
      else None
    else if s[0] == QUOTE || s[0] < 32 then None
    else Prepend(s[0], Unescape(s[1..]))
  }

  /** The segment a match stands for, if it stands for one. */
  function Meaning(m: Match): Option<Segment> {
    match m
    case NoMatch => None
    case BareKey(key, _) => if key == [DOLLAR] then None else Some(Key(key))
    case Number(digits, _) =>
      if 0 <= DecimalValue(digits) <= MAX_SAFE_INTEGER then Some(Index(DecimalValue(digits))) else None
    case Quoted(body, _) => match Unescape(body) case None => None case Some(key) => Some(Key(key))
  }

  function Segments(rest: Text): Option<seq<Segment>>
    decreases |rest|
  {
    if rest == [] then Some([])
    else
      var m := MatchSegment(rest);
      if Meaning(m).None? then None
      else match Segments(rest[m.whole..])
        case None => None
        case Some(tail) => Some([Meaning(m).value] + tail)
  }

  function Parsed(path: Text): Option<seq<Segment>> {
    var t := Trim(path);
    if t == [] || t[0] != DOLLAR then None else Segments(t[1..])
  }

  method JsonPathToSegments(path: Text) returns (r: Option<seq<Segment>>)
    ensures r == Parsed(path)
  {
    hide Segments, MatchSegment, Meaning, Unescape, DecimalValue, Trim;
    var rest := Trim(path);
    if rest == [] || rest[0] != DOLLAR { return None; }
    rest := rest[1..];
    var segments: seq<Segment> := [];
    ghost var all := rest;
    OntoNothing(Segments(all));
    while |rest| > 0
      invariant Segments(all) == Onto(segments, Segments(rest))
      decreases |rest|
    {
      var m := MatchSegment(rest);
      SegmentsUnfold(segments, rest);
      MeaningSpelled(m);
      match m {
        case NoMatch =>
          return None;
        case BareKey(key, _) =>
          if key == [DOLLAR] { return None; }
          segments := segments + [Key(key)];
        case Number(digits, _) =>
          var value := DecimalValue(digits);
          if !(0 <= value <= MAX_SAFE_INTEGER) { return None; }
          segments := segments + [Index(value)];
        case Quoted(body, _) =>
          var parsed := Unescape(body);
          if parsed.None? { return None; }
          segments := segments + [Key(parsed.value)];
      }
      rest := rest[m.whole..];
    }
    assert segments + [] == segments && Segments(rest) == Some([]) by { NoSegments(); }
    r := Some(segments);
  }

  function Onto(segments: seq<Segment>, r: Option<seq<Segment>>): Option<seq<Segment>> {
    match r case None => None case Some(tail) => Some(segments + tail)
  }

  lemma OntoNothing(r: Option<seq<Segment>>)
    ensures Onto([], r) == r
  {
    if r.Some? { assert [] + r.value == r.value; }
  }

  lemma {:induction false} SegmentsUnfold(segments: seq<Segment>, rest: Text)
    requires rest != []
    ensures var m := MatchSegment(rest);
            Onto(segments, Segments(rest)) ==
            if Meaning(m).None? then None else Onto(segments + [Meaning(m).value], Segments(rest[m.whole..]))
    ensures !MatchSegment(rest).NoMatch? ==> 0 < MatchSegment(rest).whole <= |rest|
  {
    hide MatchSegment, Unescape, DecimalValue;
    var m := MatchSegment(rest);
    if Meaning(m).Some? && Segments(rest[m.whole..]).Some? {
      var tail := Segments(rest[m.whole..]).value;
      assert segments + ([Meaning(m).value] + tail) == segments + [Meaning(m).value] + tail;
    }
  }

  lemma MeaningSpelled(m: Match)
    ensures Meaning(m) ==
            match m
            case NoMatch => None
            case BareKey(key, _) => if key == [DOLLAR] then None else Some(Key(key))
            case Number(digits, _) =>
              if 0 <= DecimalValue(digits) <= MAX_SAFE_INTEGER then Some(Index(DecimalValue(digits))) else None
            case Quoted(body, _) => match Unescape(body) case None => None case Some(key) => Some(Key(key))
  {
  }

  lemma NoSegments()
    ensures Segments([]) == Some([])
  {
  }

  // ---------------------------------------------------------------- the spellings of a location

  predicate IsBareKey(key: Text) {
    key != [] && KeyStart(key[0]) && (forall c <- key :: KeyPart(c)) && key != [DOLLAR]
  }

  /** A decimal numeral without leading zeros. */
  predicate IsNumeral(s: Text) {
    s != [] && (forall c <- s :: Digit(c)) && (s[0] == 48 ==> |s| == 1)
  }

  /** text is one way to write seg: a bare identifier, an index, or a JSON string. */
  ghost predicate Spells(text: Text, seg: Segment) {
    match seg
    case Key(key) =>
      || (IsBareKey(key) && text == [DOT] + key)
      || (exists body :: text == [OPEN, QUOTE] + body + [QUOTE, CLOSE] && Unescape(body) == Some(key))
    case Index(index) =>
      index <= MAX_SAFE_INTEGER &&
      exists digits :: IsNumeral(digits) && text == [OPEN] + digits + [CLOSE] && DecimalValue(digits) == index
  }

  function Concat(texts: seq<Text>): Text {
    if texts == [] then [] else texts[0] + Concat(texts[1..])
  }

  ghost predicate SpellsAll(texts: seq<Text>, segs: seq<Segment>) {
    |texts| == |segs| && forall k :: 0 <= k < |segs| ==> Spells(texts[k], segs[k])
  }

  /** What can follow a segment. */
  predicate Boundary(rest: Text) {
    rest == [] || rest[0] == DOT || rest[0] == OPEN
  }

  /** A string that JSON accepts is closed by the first unescaped quote. */
  lemma {:induction false} JsonStringClosed(body: Text, rest: Text)
    requires Unescape(body).Some?
    ensures ClosingQuote(body + [QUOTE] + rest) == Some(|body|)
    decreases |body|
  {
    var s := body + [QUOTE] + rest;
    if body == [] {
      assert s[0] == QUOTE;
    } else if body[0] == BACKSLASH {
      assert s[0] == body[0] && s[1] == body[1];
      if SimpleEscape(body[1]).Some? {
        assert s[2..] == body[2..] + [QUOTE] + rest;
        JsonStringClosed(body[2..], rest);
      } else {
        assert s[6..] == body[6..] + [QUOTE] + rest;
        JsonStringClosed(body[6..], rest);
        assert forall k :: 2 <= k < 6 ==> s[k] == body[k] && HexDigit(body[2..][k - 2]) < 16;
        PlainUnits(s[2..], 4);
        assert s[2..][4..] == s[6..];
      }
    } else {
      assert s[0] == body[0] && s[1..] == body[1..] + [QUOTE] + rest;
      JsonStringClosed(body[1..], rest);
    }
  }

  lemma {:induction false} PlainUnits(s: Text, n: nat)
    requires n <= |s| && forall k :: 0 <= k < n ==> s[k] != QUOTE && s[k] != BACKSLASH
    ensures ClosingQuote(s) == match ClosingQuote(s[n..]) case None => None case Some(k) => Some(k + n)
  {
    if n > 0 {
      PlainUnits(s[1..], n - 1);
      assert s[1..][n - 1..] == s[n..];
    } else {
      assert s[0..] == s;
    }
  }

  lemma KeyEnds(key: Text, rest: Text)
    requires (forall c <- key :: KeyPart(c)) && Boundary(rest)
    ensures KeyLength(key + rest) == |key|
  {
    assert forall k :: 0 <= k < |key| ==> (key + rest)[k] == key[k] && KeyPart(key[k]);
    assert rest != [] ==> (key + rest)[|key|] == rest[0] && !KeyPart(rest[0]);
  }

  lemma {:induction false} DigitsEnd(digits: Text, rest: Text)
    requires (forall c <- digits :: Digit(c)) && rest != [] && rest[0] == CLOSE
    ensures DigitsLength(digits + rest) == |digits|
  {
    assert forall k :: 0 <= k < |digits| ==> (digits + rest)[k] == digits[k] && Digit(digits[k]);
    assert (digits + rest)[|digits|] == rest[0] && !Digit(rest[0]);
  }

  lemma NumeralMatches(digits: Text, rest: Text)
    requires IsNumeral(digits)
    ensures MatchSegment([OPEN] + digits + [CLOSE] + rest) == Number(digits, |digits| + 2)
  {
    hide DigitsLength;
    var s := [OPEN] + digits + [CLOSE] + rest;
    assert s[1..] == digits + ([CLOSE] + rest);
    DigitsEnd(digits, [CLOSE] + rest);
    assert s[0] == OPEN && s[1] == digits[0] && digits[0] in digits;
    assert s[|digits| + 1] == CLOSE && s[1..|digits| + 1] == digits;
  }

  lemma BareKeyMatches(key: Text, rest: Text)
    requires IsBareKey(key) && Boundary(rest)
    ensures MatchSegment([DOT] + key + rest) == BareKey(key, |key| + 1)
  {
    hide KeyLength;
    var s := [DOT] + key + rest;
    assert s[1..] == key + rest && s[0] == DOT && s[1] == key[0];
    KeyEnds(key, rest);
    assert s[1..|key| + 1] == key;
  }

  lemma {:induction false} QuotedMatches(body: Text, rest: Text)
    requires Unescape(body).Some?
    ensures MatchSegment([OPEN, QUOTE] + body + [QUOTE, CLOSE] + rest) == Quoted(body, |body| + 4)
  {
    hide ClosingQuote, Unescape;
    var s := [OPEN, QUOTE] + body + [QUOTE, CLOSE] + rest;
    QuotedPieces(body, rest);
    JsonStringClosed(body, [CLOSE] + rest);
    QuotedSegment(s, |body|);
  }

  lemma QuotedPieces(body: Text, rest: Text)
    ensures var s := [OPEN, QUOTE] + body + [QUOTE, CLOSE] + rest;
            && |s| >= |body| + 4 && s[0] == OPEN && s[1] == QUOTE && s[|body| + 3] == CLOSE
            && s[2..] == body + [QUOTE] + ([CLOSE] + rest) && s[2..|body| + 2] == body
  {
  }

  lemma QuotedSegment(s: Text, n: nat)
    requires |s| >= n + 4 && s[0] == OPEN && s[1] == QUOTE && s[n + 3] == CLOSE && ClosingQuote(s[2..]) == Some(n)
    ensures MatchSegment(s) == Quoted(s[2..n + 2], n + 4)
  {
    hide ClosingQuote;
  }

  /** In front of a boundary, a spelling is matched whole and means its segment. */
  lemma SpellingMatches(text: Text, seg: Segment, rest: Text)
    requires Spells(text, seg) && Boundary(rest)
    ensures var m := MatchSegment(text + rest);
            !m.NoMatch? && m.whole == |text| && Meaning(m) == Some(seg)
  {
    hide Unescape, DecimalValue, MatchSegment, IsNumeral;
    match seg
    case Index(index) =>
      var digits :| IsNumeral(digits) && text == [OPEN] + digits + [CLOSE] && DecimalValue(digits) == index;
      NumeralMatches(digits, rest);
    case Key(key) =>
      if IsBareKey(key) && text == [DOT] + key {
        BareKeyMatches(key, rest);
      } else {
        var body :| text == [OPEN, QUOTE] + body + [QUOTE, CLOSE] && Unescape(body) == Some(key);
        QuotedMatches(body, rest);
      }
  }

  lemma SpellingStarts(text: Text, seg: Segment)
    requires Spells(text, seg)
    ensures text != [] && (text[0] == DOT || text[0] == OPEN)
    ensures KeyPart(text[|text| - 1]) || text[|text| - 1] == CLOSE
  {
    if seg.Key? && IsBareKey(seg.key) && text == [DOT] + seg.key {
      assert text[|text| - 1] == seg.key[|seg.key| - 1];
      assert seg.key[|seg.key| - 1] in seg.key;
    }
  }

  /** The text of a match, put together from its pieces. */
  lemma MatchText(s: Text)
    requires !MatchSegment(s).NoMatch?
    ensures match MatchSegment(s)
            case NoMatch => true
            case BareKey(key, whole) =>
              s[..whole] == [DOT] + key && key != [] && KeyStart(key[0]) && forall c <- key :: KeyPart(c)
            case Number(digits, whole) => s[..whole] == [OPEN] + digits + [CLOSE] && IsNumeral(digits)
            case Quoted(body, whole) => s[..whole] == [OPEN, QUOTE] + body + [QUOTE, CLOSE]
  {
    hide ClosingQuote, KeyLength, DigitsLength;
    match MatchSegment(s)
    case NoMatch =>
    case BareKey(key, whole) =>
      assert key[0] == s[1] && forall k :: 0 <= k < |key| ==> key[k] == s[1..][k];
    case Number(digits, whole) =>
      assert digits[0] == s[1] && forall k :: 0 <= k < |digits| ==> digits[k] == s[1..][k];
    case Quoted(body, whole) =>
      assert s[2..][|body|] == QUOTE;
  }

  /** What matches and means something is one of the spellings. */
  lemma MatchIsSpelling(s: Text)
    requires Meaning(MatchSegment(s)).Some?
    ensures Spells(s[..MatchSegment(s).whole], Meaning(MatchSegment(s)).value)
  {
    hide Unescape, DecimalValue, IsNumeral, MatchSegment;
    MatchText(s);
  }

  lemma {:induction false} SpellingsParse(texts: seq<Text>, segs: seq<Segment>)
    requires SpellsAll(texts, segs)
    ensures Segments(Concat(texts)) == Some(segs) && Boundary(Concat(texts))
    decreases |texts|
  {
    if texts != [] {
      hide Spells, MatchSegment, Meaning;
      var rest := Concat(texts[1..]);
      assert Spells(texts[0], segs[0]);
      SpellingsParse(texts[1..], segs[1..]);
      SpellingMatches(texts[0], segs[0], rest);
      SpellingStarts(texts[0], segs[0]);
      assert (texts[0] + rest)[|texts[0]|..] == rest;
      assert segs == [segs[0]] + segs[1..];
    }
  }

  /** The first step of reading a path that can be read. */
  lemma {:induction false} FirstSegment(s: Text) returns (n: nat, seg: Segment)
    requires s != [] && Segments(s).Some?
    ensures 0 < n <= |s| && Spells(s[..n], seg)
    ensures Segments(s[n..]).Some? && Segments(s).value == [seg] + Segments(s[n..]).value
  {
    hide Spells, MatchSegment, DecimalValue, Unescape;
    var m := MatchSegment(s);
    n, seg := m.whole, Meaning(m).value;
    MatchIsSpelling(s);
  }

  lemma {:induction false} ParsedIsSpelled(s: Text) returns (texts: seq<Text>)
    requires Segments(s).Some?
    ensures s == Concat(texts) && SpellsAll(texts, Segments(s).value)
    decreases |s|
  {
    hide Spells, SpellsAll, Concat, Segments;
    if s == [] {
      texts := [];
      NothingSpelled();
    } else {
      var n, seg := FirstSegment(s);
      var tail := ParsedIsSpelled(s[n..]);
      texts := [s[..n]] + tail;
      ConcatCons(s[..n], tail);
      SpellsCons(s[..n], seg, tail, Segments(s[n..]).value);
    }
  }

  lemma NothingSpelled()
    ensures Concat([]) == [] && Segments([]) == Some([]) && SpellsAll([], [])
  {
  }

  lemma SpellsCons(text: Text, seg: Segment, texts: seq<Text>, segs: seq<Segment>)
    requires Spells(text, seg) && SpellsAll(texts, segs)
    ensures SpellsAll([text] + texts, [seg] + segs)
  {
    hide Spells;
  }

  lemma ConcatCons(text: Text, texts: seq<Text>)
    ensures Concat([text] + texts) == text + Concat(texts)
  {
    assert ([text] + texts)[1..] == texts;
  }

  /** A path is read as segs exactly when, without the space around it, it is `$` followed by one
      spelling of each segment. */
  lemma ParsedIffSpelled(path: Text, segs: seq<Segment>)
    ensures Parsed(path) == Some(segs) <==>
            exists texts :: SpellsAll(texts, segs) && Trim(path) == [DOLLAR] + Concat(texts)
  {
    var t := Trim(path);
    if Parsed(path) == Some(segs) {
      var texts := ParsedIsSpelled(t[1..]);
      assert t == [DOLLAR] + t[1..];
    }
    if texts :| SpellsAll(texts, segs) && t == [DOLLAR] + Concat(texts) {
      SpellingsParse(texts, segs);
      assert t[1..] == Concat(texts);
    }
  }

  // ---------------------------------------------------------------- writing

  function Decimal(n: nat): (r: Text)
    ensures IsNumeral(r) && DecimalValue(r) == n
  {
    if n < 10 then [48 + n]
    else
      var front := Decimal(n / 10);
      assert DecimalValue(front) > 0;
      assert (front + [48 + n % 10])[..|front|] == front;
      front + [48 + n % 10]
  }

  /** A lower-case hexadecimal digit. */
  function HexUnit(n: nat): Unit
    requires n < 16
  {
    if n < 10 then 48 + n else 87 + n
  }

  function UnicodeEscape(c: Unit): Text {
    [BACKSLASH, 117, HexUnit(c / 4096), HexUnit(c / 256 % 16), HexUnit(c / 16 % 16), HexUnit(c % 16)]
  }

  predicate HighSurrogate(c: Unit) {
    0xD800 <= c < 0xDC00
  }

  predicate LowSurrogate(c: Unit) {
    0xDC00 <= c < 0xE000
  }

  /** JSON.stringify on a string, without the quotes. */
  function Escaped(key: Text): Text {
    if key == [] then []
    else
      var c := key[0];
      if c == 8 then [BACKSLASH, 98] + Escaped(key[1..])
      else if c == 9 then [BACKSLASH, 116] + Escaped(key[1..])
      else if c == 10 then [BACKSLASH, 110] + Escaped(key[1..])
      else if c == 12 then [BACKSLASH, 102] + Escaped(key[1..])
      else if c == 13 then [BACKSLASH, 114] + Escaped(key[1..])
      else if c == QUOTE || c == BACKSLASH then [BACKSLASH, c] + Escaped(key[1..])
      else if c < 32 then UnicodeEscape(c) + Escaped(key[1..])
      else if HighSurrogate(c) && |key| > 1 && LowSurrogate(key[1]) then [c, key[1]] + Escaped(key[2..])
      else if HighSurrogate(c) || LowSurrogate(c) then UnicodeEscape(c) + Escaped(key[1..])
      else [c] + Escaped(key[1..])
  }

  function SegmentText(seg: Segment): Text {
    match seg
    case Index(index) => [OPEN] + Decimal(index) + [CLOSE]
    case Key(key) => if IsBareKey(key) then [DOT] + key else [OPEN, QUOTE] + Escaped(key) + [QUOTE, CLOSE]
  }

  function SegmentTexts(segs: seq<Segment>): (r: seq<Text>)
    ensures |r| == |segs| && forall k :: 0 <= k < |segs| ==> r[k] == SegmentText(segs[k])
  {
    hide SegmentText;
    if segs == [] then [] else [SegmentText(segs[0])] + SegmentTexts(segs[1..])
  }

  /** segmentsToJsonPath */
  function PathOf(segs: seq<Segment>): Text {
    [DOLLAR] + Concat(SegmentTexts(segs))
  }

  lemma HexReadsBack(n: nat)
    requires n < 16
    ensures HexDigit(HexUnit(n)) == n
  {
  }

  lemma HexPlaces(c: Unit)
    ensures c / 4096 < 16
    ensures ((c / 4096 * 16 + c / 256 % 16) * 16 + c / 16 % 16) * 16 + c % 16 == c
  {
    var a, b, d := c / 16, c / 256, c / 4096;
    assert b == a / 16 && d == b / 16;
  }

  lemma {:induction false} UnescapeUnicode(c: Unit, rest: Text)
    ensures Unescape(UnicodeEscape(c) + rest) == Prepend(c, Unescape(rest))
  {
    hide HexDigit, HexUnit;
    var s := UnicodeEscape(c) + rest;
    HexPlaces(c);
    HexReadsBack(c / 4096);
    HexReadsBack(c / 256 % 16);
    HexReadsBack(c / 16 % 16);
    HexReadsBack(c % 16);
    assert s[6..] == rest && s[0] == BACKSLASH && s[1] == 117;
    var h := s[2..];
    assert h[0] == HexUnit(c / 4096) && h[1] == HexUnit(c / 256 % 16) && h[2] == HexUnit(c / 16 % 16) &&
           h[3] == HexUnit(c % 16);
    assert Hex4(h) && Hex4Value(h) == c;
  }

  lemma UnescapeSimple(e: Unit, rest: Text)
    requires SimpleEscape(e).Some?
    ensures Unescape([BACKSLASH, e] + rest) == Prepend(SimpleEscape(e).value, Unescape(rest))
  {
    assert ([BACKSLASH, e] + rest)[2..] == rest;
  }

  lemma UnescapePlain(c: Unit, rest: Text)
    requires c >= 32 && c != QUOTE && c != BACKSLASH
    ensures Unescape([c] + rest) == Prepend(c, Unescape(rest))
  {
    assert ([c] + rest)[1..] == rest;
  }

  lemma {:induction false} EscapedReadsBack(key: Text)
    ensures Unescape(Escaped(key)) == Some(key)
  {
    hide Unescape;
    if key == [] {
      assert Unescape([]) == Some([]) by { EmptyReads(); }
    } else {
      var c, rest := key[0], key[1..];
      EscapedReadsBack(rest);
      assert key == [c] + rest;
      if c == 8 { UnescapeSimple(98, Escaped(rest)); }
      else if c == 9 { UnescapeSimple(116, Escaped(rest)); }
      else if c == 10 { UnescapeSimple(110, Escaped(rest)); }
      else if c == 12 { UnescapeSimple(102, Escaped(rest)); }
      else if c == 13 { UnescapeSimple(114, Escaped(rest)); }
      else if c == QUOTE || c == BACKSLASH { UnescapeSimple(c, Escaped(rest)); }
      else if c < 32 { UnescapeUnicode(c, Escaped(rest)); }
      else if HighSurrogate(c) && |key| > 1 && LowSurrogate(key[1]) {
        var after := key[2..];
        EscapedReadsBack(after);
        assert key == [c] + ([key[1]] + after);
        assert [c, key[1]] + Escaped(after) == [c] + ([key[1]] + Escaped(after));
        UnescapePlain(key[1], Escaped(after));
        UnescapePlain(c, [key[1]] + Escaped(after));
      }
      else if HighSurrogate(c) || LowSurrogate(c) { UnescapeUnicode(c, Escaped(rest)); }
      else { UnescapePlain(c, Escaped(rest)); }
    }
  }

  lemma EmptyReads()
    ensures Unescape([]) == Some([])
  {
  }

  predicate Writable(seg: Segment) {
    seg.Index? ==> seg.index <= MAX_SAFE_INTEGER
  }

  lemma SegmentTextSpells(seg: Segment)
    requires Writable(seg)
    ensures Spells(SegmentText(seg), seg)
  {
    match seg
    case Index(index) => assert IsNumeral(Decimal(index)) && DecimalValue(Decimal(index)) == index;
    case Key(key) => EscapedReadsBack(key);
  }

  lemma {:induction false} ConcatEnd(texts: seq<Text>, segs: seq<Segment>)
    requires SpellsAll(texts, segs) && texts != []
    ensures Concat(texts) != [] && !Strings.WhiteSpace(Concat(texts)[|Concat(texts)| - 1])
    decreases |texts|
  {
    hide Spells;
    assert Spells(texts[0], segs[0]);
    SpellingStarts(texts[0], segs[0]);
    if |texts| > 1 { ConcatEnd(texts[1..], segs[1..]); }
  }

  /** A path built from spellings has no space around it. */
  lemma NothingToTrim(texts: seq<Text>, segs: seq<Segment>)
    requires SpellsAll(texts, segs)
    ensures Trim([DOLLAR] + Concat(texts)) == [DOLLAR] + Concat(texts)
  {
    if texts != [] { ConcatEnd(texts, segs); }
  }

  /** Reading a written path gives back its segments, for every list of keys of any characters and
      indexes up to the largest safe integer. */
  lemma RoundTrip(segs: seq<Segment>)
    requires forall seg <- segs :: Writable(seg)
    ensures Parsed(PathOf(segs)) == Some(segs)
  {
    hide Spells;
    var texts := SegmentTexts(segs);
    forall k | 0 <= k < |segs|
      ensures Spells(texts[k], segs[k])
    {
      SegmentTextSpells(segs[k]);
    }
    NothingToTrim(texts, segs);
    ParsedIffSpelled(PathOf(segs), segs);
  }

  /** Writing one more segment behind a path that ends in no white space reads as one more segment. */
  lemma AppendSegment(path: Text, segs: seq<Segment>, text: Text, seg: Segment)
    requires Parsed(path) == Some(segs) && path != [] && !Strings.WhiteSpace(path[|path| - 1])
    requires Spells(text, seg)
    ensures Parsed(path + text) == Some(segs + [seg])
  {
    hide Spells, SpellsAll, Concat, Trim, Parsed;
    ParsedIffSpelled(path, segs);
    var texts :| SpellsAll(texts, segs) && Trim(path) == [DOLLAR] + Concat(texts);
    ConcatPush(texts, text);
    SpellsPush(texts, segs, text, seg);
    TrimAppended(path, text, seg);
    Strings.Associates([DOLLAR], Concat(texts), text);
    assert Trim(path + text) == [DOLLAR] + Concat(texts + [text]);
    ParsedIffSpelled(path + text, segs + [seg]);
  }

  lemma TrimAppended(path: Text, text: Text, seg: Segment)
    requires path != [] && !Strings.WhiteSpace(path[|path| - 1]) && Spells(text, seg)
    ensures Trim(path + text) == Trim(path) + text
  {
    hide Spells;
    SpellingStarts(text, seg);
    Strings.TrimBoth(path, text, (c: Unit) => c as int);
  }

  lemma SpellsPush(texts: seq<Text>, segs: seq<Segment>, text: Text, seg: Segment)
    requires SpellsAll(texts, segs) && Spells(text, seg)
    ensures SpellsAll(texts + [text], segs + [seg])
  {
    hide Spells;
  }

  lemma {:induction false} ConcatPush(texts: seq<Text>, text: Text)
    ensures Concat(texts + [text]) == Concat(texts) + text
    decreases |texts|
  {
    if texts == [] {
      assert texts + [text] == [text] && [text][1..] == [];
    } else {
      assert (texts + [text])[0] == texts[0] && (texts + [text])[1..] == texts[1..] + [text];
      ConcatPush(texts[1..], text);
    }
  }
}
