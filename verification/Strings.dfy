/** What JavaScript's string methods and regular expressions say of single characters, and the
    trimming built on it. The characters may be of any type that has a code. */
module Strings {
  /** What trim and parseInt take for white space. */
  predicate WhiteSpace(code: int) {
    9 <= code <= 13 || code == 32 || code == 0xA0 || code == 0x1680 || 0x2000 <= code <= 0x200A ||
    code == 0x2028 || code == 0x2029 || code == 0x202F || code == 0x205F || code == 0x3000 || code == 0xFEFF
  }

  /** What a dot in a regular expression does not match. */
  predicate LineTerminator(code: int) {
    code == 10 || code == 13 || code == 0x2028 || code == 0x2029
  }

  /** The white space and the line terminators of sections 12.2 and 12.3 of ECMA-262, code by code. */
  lemma CodesSpelled(code: int)
    ensures WhiteSpace(code) <==>
            code in {0x9, 0xA, 0xB, 0xC, 0xD, 0x20, 0xA0, 0x1680, 0x2000, 0x2001, 0x2002, 0x2003, 0x2004, 0x2005,
                     0x2006, 0x2007, 0x2008, 0x2009, 0x200A, 0x2028, 0x2029, 0x202F, 0x205F, 0x3000, 0xFEFF}
    ensures LineTerminator(code) <==> code in {0xA, 0xD, 0x2028, 0x2029}
  {
  }

  function TrimStart<C>(s: seq<C>, code: C -> int): seq<C> {
    if s != [] && WhiteSpace(code(s[0])) then TrimStart(s[1..], code) else s
  }

  function TrimEnd<C>(s: seq<C>, code: C -> int): seq<C> {
    if s != [] && WhiteSpace(code(s[|s| - 1])) then TrimEnd(s[..|s| - 1], code) else s
  }

  function Trim<C>(s: seq<C>, code: C -> int): seq<C> {
    TrimEnd(TrimStart(s, code), code)
  }

  /** Trimming takes white space off either end, and all of it. */
  lemma {:induction false} TrimSpelled<C>(s: seq<C>, code: C -> int) returns (before: seq<C>, after: seq<C>)
    ensures s == before + Trim(s, code) + after
    ensures forall c :: c in before || c in after ==> WhiteSpace(code(c))
    ensures var t := Trim(s, code);
            t != [] ==> !WhiteSpace(code(t[0])) && !WhiteSpace(code(t[|t| - 1]))
  {
    hide WhiteSpace;
    before := StartTrimmed(s, code);
    after := EndTrimmed(TrimStart(s, code), code);
  }

  lemma {:induction false} StartTrimmed<C>(s: seq<C>, code: C -> int) returns (before: seq<C>)
    ensures s == before + TrimStart(s, code)
    ensures forall c :: c in before ==> WhiteSpace(code(c))
    ensures TrimStart(s, code) != [] ==> !WhiteSpace(code(TrimStart(s, code)[0]))
  {
    hide WhiteSpace;
    before := [];
    if s != [] && WhiteSpace(code(s[0])) {
      before := StartTrimmed(s[1..], code);
      assert s == [s[0]] + s[1..];
      before := [s[0]] + before;
    }
  }

  lemma {:induction false} EndTrimmed<C>(s: seq<C>, code: C -> int) returns (after: seq<C>)
    ensures s == TrimEnd(s, code) + after
    ensures forall c :: c in after ==> WhiteSpace(code(c))
    ensures TrimEnd(s, code) != [] ==>
              TrimEnd(s, code)[0] == s[0] && !WhiteSpace(code(TrimEnd(s, code)[|TrimEnd(s, code)| - 1]))
  {
    hide WhiteSpace;
    after := [];
    if s != [] && WhiteSpace(code(s[|s| - 1])) {
      after := EndTrimmed(s[..|s| - 1], code);
      assert s == s[..|s| - 1] + [s[|s| - 1]];
      after := after + [s[|s| - 1]];
    }
  }

  /** Text that ends in no white space keeps its end when more such text follows. */
  lemma {:induction false} TrimBoth<C>(a: seq<C>, b: seq<C>, code: C -> int)
    requires a != [] && !WhiteSpace(code(a[|a| - 1]))
    requires b != [] && !WhiteSpace(code(b[|b| - 1]))
    ensures Trim(a + b, code) == Trim(a, code) + b
  {
    if WhiteSpace(code(a[0])) {
      assert (a + b)[1..] == a[1..] + b;
      TrimBoth(a[1..], b, code);
    }
  }

  lemma Associates<C>(a: seq<C>, b: seq<C>, c: seq<C>)
    ensures a + b + c == a + (b + c)
  {
  }

  /** The last element of b is the last of a + b. */
  lemma LastOfTwo<C>(a: seq<C>, b: seq<C>)
    requires b != []
    ensures var n := |b| - 1;
            (a + b)[..|a| + n] == a + b[..n] && (a + b)[|a| + n] == b[n] && (a + b)[..|a| + n + 1] == a + b
    ensures b[..|b|] == b
  {
  }

  /** string.trim */
  function TrimText(s: string): string {
    Trim(s, (c: char) => c as int)
  }
}
