/** Summarizing an event stream: its JSON payload candidates and what one key path picks from them. */
module SseSummary {
  import opened Wrappers
  import Strings

  datatype Summary = Summary(fragmentCount: nat, summary: string)

  // ---------------------------------------------------------------- text

  function Trim(s: string): string {
    Strings.TrimText(s)
  }

  /** text.replace of every CR LF by LF. */
  function CrLfToLf(s: string): string {
    if s == [] then []
    else if |s| > 1 && s[0] == '\r' && s[1] == '\n' then "\n" + CrLfToLf(s[2..])
    else [s[0]] + CrLfToLf(s[1..])
  }

  /** text.replace of every remaining CR by LF. */
  function CrToLf(s: string): string {
    if s == [] then [] else [if s[0] == '\r' then '\n' else s[0]] + CrToLf(s[1..])
  }

  function Normalize(text: string): string {
    CrToLf(CrLfToLf(text))
  }

  /** The number of line feeds at the front. */
  function Run(s: string): (n: nat)
    ensures n <= |s| && (forall k :: 0 <= k < n ==> s[k] == '\n') && (n < |s| ==> s[n] != '\n')
  {
    if s == [] || s[0] != '\n' then 0 else 1 + Run(s[1..])
  }

  /** Where the first run of two or more line feeds starts, or the end. */
  function Gap(s: string): (n: nat)
    ensures n <= |s|
  {
    if s == [] || Run(s) >= 2 then 0 else 1 + Gap(s[1..])
  }

  /** What follows the first such run. */
  function AfterGap(s: string): (r: string)
    requires Gap(s) < |s|
    ensures |r| < |s|
  {
    GapIsRun(s);
    s[Gap(s) + Run(s[Gap(s)..])..]
  }

  /** text.split on runs of two or more line feeds. */
  function Blocks(s: string): seq<string>
    decreases |s|
  {
    if Gap(s) == |s| then [s] else [s[..Gap(s)]] + Blocks(AfterGap(s))
  }

  lemma {:induction false} GapIsRun(s: string)
    ensures Gap(s) < |s| ==> Run(s[Gap(s)..]) >= 2
    ensures Gap(s) == 0 && s != [] ==> Run(s) >= 2
  {
    if s != [] && Run(s) < 2 {
      GapIsRun(s[1..]);
      assert s[1..][Gap(s[1..])..] == s[Gap(s)..];
    } else {
      assert s[0..] == s;
    }
  }

  /** block.split("\n") */
  function Lines(s: string): (r: seq<string>)
    ensures r != []
  {
    if s == [] then [[]]
    else if s[0] == '\n' then [[]] + Lines(s[1..])
    else [[s[0]] + Lines(s[1..])[0]] + Lines(s[1..])[1..]
  }

  function JoinLines(lines: seq<string>): string {
    if lines == [] then [] else if |lines| == 1 then lines[0] else lines[0] + "\n" + JoinLines(lines[1..])
  }

  // ---------------------------------------------------------------- candidates

  predicate StartsWith(s: string, prefix: string) {
    |prefix| <= |s| && s[..|prefix|] == prefix
  }

  /** The data of a data line: what follows the colon, without one space. A Unicode line or
      paragraph separator keeps a line from matching. */
  function DataOf(line: string): Option<string> {
    if StartsWith(line, "data:") && forall c <- line :: c as int != 0x2028 && c as int != 0x2029 then
      var rest := line[5..];
      Some(if rest != [] && rest[0] == ' ' then rest[1..] else rest)
    else None
  }

  function DataLines(lines: seq<string>): seq<string> {
    if lines == [] then []
    else (match DataOf(lines[0]) case Some(d) => [d] case None => []) + DataLines(lines[1..])
  }

  function Lower(c: char): char {
    if 'A' <= c <= 'Z' then (c as int + 32) as char else c
  }

  function LowerAll(s: string): string {
    if s == [] then [] else [Lower(s[0])] + LowerAll(s[1..])
  }

  predicate StandardField(line: string) {
    var l := LowerAll(line);
    StartsWith(l, "event:") || StartsWith(l, "id:") || StartsWith(l, "retry:")
  }

  /** What a line gives in a block that is not JSON as a whole. */
  function LineCandidate(line: string, parsable: string -> bool): seq<string> {
    var t := Trim(line);
    if t == [] || t[0] == ':' || StandardField(t) || !parsable(t) then [] else [t]
  }

  function LineCandidates(lines: seq<string>, parsable: string -> bool): seq<string> {
    if lines == [] then []
    else LineCandidates(lines[..|lines| - 1], parsable) + LineCandidate(lines[|lines| - 1], parsable)
  }

  function BlockCandidates(block: string, parsable: string -> bool): seq<string> {
    var data := DataLines(Lines(block));
    if data != [] then
      var payload := Trim(JoinLines(data));
      if payload != [] then [payload] else []
    else
      var t := Trim(block);
      if t == [] then []
      else if parsable(t) then [t]
      else LineCandidates(Lines(block), parsable)
  }

  function CandidatesOfBlocks(blocks: seq<string>, parsable: string -> bool): seq<string> {
    if blocks == [] then []
    else CandidatesOfBlocks(blocks[..|blocks| - 1], parsable) + BlockCandidates(blocks[|blocks| - 1], parsable)
  }

  function Candidates(text: string, parsable: string -> bool): seq<string> {
    CandidatesOfBlocks(Blocks(Normalize(text)), parsable)
  }

  method CandidateJsonPayloadsFromSseText(text: string, parsable: string -> bool) returns (candidates: seq<string>)
    ensures candidates == Candidates(text, parsable)
  {
    hide Lines, DataLines, Trim, StandardField, JoinLines, Blocks, Normalize, LineCandidates, CandidatesOfBlocks;
    var blocks := Blocks(Normalize(text));
    candidates := [];
    NoCandidates(parsable);
    for k := 0 to |blocks|
      invariant candidates == CandidatesOfBlocks(blocks[..k], parsable)
    {
      var block := blocks[k];
      ghost var before := candidates;
      BlocksPush(blocks, k, parsable);
      var lines := Lines(block);
      var dataLines := DataLines(lines);
      if |dataLines| > 0 {
        var payload := Trim(JoinLines(dataLines));
        if payload != [] { candidates := candidates + [payload]; }
        continue;
      }
      var trimmedBlock := Trim(block);
      if trimmedBlock == [] { continue; }
      if parsable(trimmedBlock) {
        candidates := candidates + [trimmedBlock];
        continue;
      }
      for j := 0 to |lines|
        invariant candidates == before + LineCandidates(lines[..j], parsable)
      {
        var trimmedLine := Trim(lines[j]);
        LinesPush(lines, j, parsable);
        if trimmedLine == [] || trimmedLine[0] == ':' || StandardField(trimmedLine) || !parsable(trimmedLine) {
          continue;
        }
        candidates := candidates + [trimmedLine];
      }
      assert lines[..|lines|] == lines;
    }
    assert blocks[..|blocks|] == blocks;
  }

  lemma NoCandidates(parsable: string -> bool)
    ensures CandidatesOfBlocks([], parsable) == [] && LineCandidates([], parsable) == []
  {
  }

  lemma {:induction false} BlocksPush(blocks: seq<string>, k: nat, parsable: string -> bool)
    requires k < |blocks|
    ensures CandidatesOfBlocks(blocks[..k + 1], parsable) ==
            CandidatesOfBlocks(blocks[..k], parsable) + BlockCandidates(blocks[k], parsable)
  {
    assert blocks[..k + 1][..k] == blocks[..k];
  }

  lemma LinesPush(lines: seq<string>, k: nat, parsable: string -> bool)
    requires k < |lines|
    ensures LineCandidates(lines[..k + 1], parsable) ==
            LineCandidates(lines[..k], parsable) + LineCandidate(lines[k], parsable)
  {
    assert lines[..k + 1][..k] == lines[..k];
  }

  // ---------------------------------------------------------------- the summary

  function Fragments(payloads: seq<string>, extract: string -> Option<string>): seq<string> {
    if payloads == [] then []
    else
      Fragments(payloads[..|payloads| - 1], extract) +
      match extract(payloads[|payloads| - 1]) case Some(f) => [f] case None => []
  }

  function JoinAll(s: seq<string>): string {
    if s == [] then [] else s[0] + JoinAll(s[1..])
  }

  function SummaryOf(text: string, parsable: string -> bool, extract: string -> Option<string>): Summary {
    var fragments := Fragments(Candidates(text, parsable), extract);
    Summary(|fragments|, JoinAll(fragments))
  }

  /** extract reads one payload at the key path. */
  method ComputeSseSummary(
    text: string, parsable: string -> bool, extract: string -> Option<string>) returns (r: Summary)
    ensures r == SummaryOf(text, parsable, extract)
  {
    var payloads := CandidateJsonPayloadsFromSseText(text, parsable);
    var fragments: seq<string> := [];
    for k := 0 to |payloads|
      invariant fragments == Fragments(payloads[..k], extract)
    {
      assert payloads[..k + 1][..k] == payloads[..k];
      var fragment := extract(payloads[k]);
      if fragment.Some? { fragments := fragments + [fragment.value]; }
    }
    assert payloads[..|payloads|] == payloads;
    r := Summary(|fragments|, JoinAll(fragments));
  }

  // ---------------------------------------------------------------- a line feed at either end of a block

  lemma TrimBefore(s: string)
    ensures Trim("\n" + s) == Trim(s)
  {
    assert ("\n" + s)[1..] == s;
  }

  lemma {:induction false} TrimAfter(s: string)
    ensures Trim(s + "\n") == Trim(s)
  {
    if s == [] {
      assert Trim("\n") == Trim([]) by { assert "\n"[1..] == []; }
      assert [] + "\n" == "\n";
    } else if Strings.WhiteSpace(s[0] as int) {
      assert (s + "\n")[1..] == s[1..] + "\n";
      TrimAfter(s[1..]);
    } else {
      assert (s + "\n")[..|s|] == s;
    }
  }

  lemma {:induction false} LinesBefore(s: string)
    ensures Lines("\n" + s) == [[]] + Lines(s)
  {
    assert ("\n" + s)[1..] == s;
  }

  lemma {:induction false} LinesAfter(s: string)
    ensures Lines(s + "\n") == Lines(s) + [[]]
  {
    if s == [] {
      assert [] + "\n" == "\n" && "\n"[1..] == [];
    } else {
      assert (s + "\n")[1..] == s[1..] + "\n";
      LinesAfter(s[1..]);
    }
  }

  lemma {:induction false} DataLinesConcat(a: seq<string>, b: seq<string>)
    ensures DataLines(a + b) == DataLines(a) + DataLines(b)
  {
    hide DataOf;
    if a == [] {
      assert a + b == b;
    } else {
      assert (a + b)[0] == a[0] && (a + b)[1..] == a[1..] + b;
      DataLinesConcat(a[1..], b);
      var first := match DataOf(a[0]) case Some(d) => [d] case None => [];
      Strings.Associates(first, DataLines(a[1..]), DataLines(b));
    }
  }

  lemma {:induction false} LineCandidatesConcat(a: seq<string>, b: seq<string>, parsable: string -> bool)
    ensures LineCandidates(a + b, parsable) == LineCandidates(a, parsable) + LineCandidates(b, parsable)
    decreases |b|
  {
    hide LineCandidate, LineCandidates;
    if b == [] {
      NoCandidates(parsable);
      assert a + b == a;
    } else {
      var n := |b| - 1;
      Strings.LastOfTwo(a, b);
      LinesPush(a + b, |a| + n, parsable);
      LinesPush(b, n, parsable);
      LineCandidatesConcat(a, b[..n], parsable);
      var last := LineCandidate(b[n], parsable);
      Strings.Associates(LineCandidates(a, parsable), LineCandidates(b[..n], parsable), last);
    }
  }

  /** An empty line gives nothing. */
  lemma EmptyLine(parsable: string -> bool)
    ensures DataLines([[]]) == [] && LineCandidates([[]], parsable) == []
  {
  }

  /** A line feed at either end of a block changes nothing that is read from it. */
  lemma {:induction false} BlockPadding(block: string, parsable: string -> bool)
    ensures BlockCandidates("\n" + block, parsable) == BlockCandidates(block, parsable)
    ensures BlockCandidates(block + "\n", parsable) == BlockCandidates(block, parsable)
  {
    hide Lines, Trim, DataLines, LineCandidates, JoinLines;
    EmptyLine(parsable);
    TrimBefore(block);
    TrimAfter(block);
    LinesBefore(block);
    LinesAfter(block);
    DataLinesConcat([[]], Lines(block));
    DataLinesConcat(Lines(block), [[]]);
    LineCandidatesConcat([[]], Lines(block), parsable);
    LineCandidatesConcat(Lines(block), [[]], parsable);
    var data, candidates := DataLines(Lines(block)), LineCandidates(Lines(block), parsable);
    assert [] + data == data && data + [] == data && [] + candidates == candidates && candidates + [] == candidates;
  }

  lemma EmptyBlock(parsable: string -> bool)
    ensures BlockCandidates([], parsable) == []
  {
    EmptyLine(parsable);
  }

  // ---------------------------------------------------------------- streams end to end

  /** The candidates of text whose line ends are line feeds. */
  function Read(s: string, parsable: string -> bool): seq<string> {
    CandidatesOfBlocks(Blocks(s), parsable)
  }

  lemma {:induction false} BlocksConcat(a: seq<string>, b: seq<string>, parsable: string -> bool)
    ensures CandidatesOfBlocks(a + b, parsable) == CandidatesOfBlocks(a, parsable) + CandidatesOfBlocks(b, parsable)
    decreases |b|
  {
    hide BlockCandidates, CandidatesOfBlocks;
    if b == [] {
      NoCandidates(parsable);
      assert a + b == a;
    } else {
      var n := |b| - 1;
      Strings.LastOfTwo(a, b);
      BlocksPush(a + b, |a| + n, parsable);
      BlocksPush(b, n, parsable);
      BlocksConcat(a, b[..n], parsable);
      var last := BlockCandidates(b[n], parsable);
      Strings.Associates(CandidatesOfBlocks(a, parsable), CandidatesOfBlocks(b[..n], parsable), last);
    }
  }

  lemma {:induction false} BlocksStep(s: string, i: nat, r: nat)
    requires Gap(s) == i < |s| && Run(s[i..]) == r
    ensures i + r <= |s| && Blocks(s) == [s[..i]] + Blocks(s[i + r..])
  {
    hide Blocks, Gap, Run;
    BlocksOnce(s);
  }

  lemma BlocksOnce(s: string)
    requires Gap(s) < |s|
    ensures Blocks(s) == [s[..Gap(s)]] + Blocks(AfterGap(s))
  {
    hide Gap, Run, AfterGap;
  }

  /** Reading goes block by block: one block, up to a gap at i of length r. */
  lemma {:induction false} ReadBlock(s: string, i: nat, r: nat, parsable: string -> bool)
    requires Gap(s) == i < |s| && Run(s[i..]) == r
    ensures i + r <= |s| && Read(s, parsable) == BlockCandidates(s[..i], parsable) + Read(s[i + r..], parsable)
  {
    hide BlockCandidates, Run, Gap, CandidatesOfBlocks, Blocks;
    BlocksStep(s, i, r);
    OneBlock(s[..i], parsable);
    BlocksConcat([s[..i]], Blocks(s[i + r..]), parsable);
  }

  /** The last block. */
  lemma {:induction false} ReadLast(s: string, parsable: string -> bool)
    requires Gap(s) == |s|
    ensures Read(s, parsable) == BlockCandidates(s, parsable)
  {
    hide BlockCandidates, CandidatesOfBlocks;
    OneBlock(s, parsable);
  }

  lemma OneBlock(block: string, parsable: string -> bool)
    ensures CandidatesOfBlocks([block], parsable) == BlockCandidates(block, parsable)
  {
    hide BlockCandidates;
    assert [block][..0] == [];
    assert CandidatesOfBlocks([], parsable) == [];
  }

  lemma {:induction false} RunConcat(a: string, b: string)
    requires forall k :: 0 <= k < |a| ==> a[k] == '\n'
    ensures Run(a + b) == |a| + Run(b)
  {
    if a == [] {
      assert a + b == b;
    } else {
      assert (a + b)[1..] == a[1..] + b;
      RunConcat(a[1..], b);
    }
  }

  /** Line feeds in front of a stream change nothing. */
  lemma {:induction false} ReadAfterFeed(s: string, parsable: string -> bool)
    ensures Read("\n" + s, parsable) == Read(s, parsable)
    decreases |s|
  {
    hide Read, Gap;
    if s != [] && s[0] == '\n' {
      FeedBeforeFeed(s, parsable);
      if Run(s) == 1 {
        assert s == "\n" + s[1..];
        ReadAfterFeed(s[1..], parsable);
      }
    } else {
      FeedBeforeText(s, parsable);
    }
  }

  lemma {:induction false} FeedBeforeFeed(s: string, parsable: string -> bool)
    requires s != [] && s[0] == '\n'
    ensures Run(s) == 1 ==> Read("\n" + s, parsable) == Read(s[1..], parsable)
    ensures Run(s) >= 1 && (Run(s) >= 2 ==> Read("\n" + s, parsable) == Read(s, parsable))
  {
    hide BlockCandidates, Read, Blocks, Gap, Run;
    FeedsCounted(s);
    var t, r := "\n" + s, Run(s);
    assert t == ['\n'] + s && t[1 + r..] == s[r..];
    GapCons('\n', s);
    ReadFromGap(t, parsable);
    if r >= 2 {
      GapAtOnce(s);
      ReadFromGap(s, parsable);
    }
  }

  /** A run of line feeds at the front ends an empty block. */
  lemma ReadFromGap(s: string, parsable: string -> bool)
    requires s != [] && Gap(s) == 0
    ensures Read(s, parsable) == Read(s[Run(s)..], parsable)
  {
    hide BlockCandidates, Read, Blocks, Gap, Run;
    var r := Run(s);
    assert s[0..] == s && s[..0] == [] && s[0 + r..] == s[r..];
    EmptyBlock(parsable);
    ReadBlock(s, 0, r, parsable);
  }

  lemma FeedsCounted(s: string)
    requires s != [] && s[0] == '\n'
    ensures 1 <= Run(s) <= |s| && Run("\n" + s) == 1 + Run(s)
  {
    RunConcat("\n", s);
  }

  lemma GapAtOnce(s: string)
    requires Run(s) >= 2
    ensures Gap(s) == 0
  {
  }

  lemma FeedBeforeText(s: string, parsable: string -> bool)
    requires s == [] || s[0] != '\n'
    ensures Read("\n" + s, parsable) == Read(s, parsable)
  {
    hide BlockCandidates, Read, Blocks, Gap, Run;
    var t, i := "\n" + s, Gap(s);
    GapCons('\n', s);
    assert t == ['\n'] + s && t[..i + 1] == "\n" + s[..i];
    BlockPadding(s[..i], parsable);
    if i < |s| {
      var r := Run(s[i..]);
      ReadBlock(s, i, r, parsable);
      assert t[i + 1..] == s[i..] && t[i + 1 + r..] == s[i + r..];
      ReadBlock(t, i + 1, r, parsable);
    } else {
      assert s[..i] == s && t[..i + 1] == t;
      ReadLast(s, parsable);
      ReadLast(t, parsable);
    }
  }

  /** Line feeds in front of a stream change nothing, however many. */
  lemma {:induction false} ReadAfterRun(s: string, parsable: string -> bool)
    ensures Read(s[Run(s)..], parsable) == Read(s, parsable)
    decreases |s|
  {
    hide Read;
    if Run(s) == 0 {
      assert s[0..] == s;
    } else {
      assert s == "\n" + s[1..];
      ReadAfterFeed(s[1..], parsable);
      ReadAfterRun(s[1..], parsable);
      assert s[1..][Run(s[1..])..] == s[Run(s)..];
    }
  }

  /** Where a gap of u lies once something follows it. */
  lemma {:induction false} GapConcat(u: string, v: string)
    requires Gap(u) < |u|
    ensures Gap(u + v) == Gap(u)
  {
    if Run(u) >= 2 {
      RunConcat(u[..Run(u)], u[Run(u)..] + v);
      assert u + v == u[..Run(u)] + (u[Run(u)..] + v);
    } else {
      assert (u + v)[1..] == u[1..] + v;
      GapConcat(u[1..], v);
      if u[0] == '\n' {
        assert Run(u) == 1 && Run(u[1..]) == 0;
        assert Gap(u[1..]) > 0 by { GapIsRun(u[1..]); }
        assert u[1..] != [] && u[1] != '\n';
        assert Run((u + v)[1..]) == 0;
      }
    }
  }

  lemma TwoFeeds(v: string)
    ensures Run("\n\n" + v) == 2 + Run(v) && Gap("\n\n" + v) == 0
    ensures Run("\n" + ("\n\n" + v)) == 3 + Run(v) && Gap("\n" + ("\n\n" + v)) == 0
  {
    RunConcat("\n\n", v);
    RunConcat("\n", "\n\n" + v);
  }

  lemma GapCons(c: char, s: string)
    ensures Gap([c] + s) == if c == '\n' && s != [] && s[0] == '\n' then 0 else 1 + Gap(s)
  {
    assert ([c] + s)[1..] == s;
  }

  /** Where the gap lies when u has none of its own and two line feeds follow. */
  lemma {:induction false} GapAtSeam(u: string, v: string)
    requires Gap(u) == |u|
    ensures Gap(u + ("\n\n" + v)) == if u != [] && u[|u| - 1] == '\n' then |u| - 1 else |u|
  {
    hide Gap, Run;
    var w := "\n\n" + v;
    TwoFeeds(v);
    if u == [] {
      assert u + w == w;
    } else {
      var c, rest := u[0], u[1..];
      assert u == [c] + rest && u + w == [c] + (rest + w);
      GapCons(c, rest);
      GapCons(c, rest + w);
      GapAtSeam(rest, v);
      if rest == [] { assert rest + w == w; }
    }
  }

  /** The gap of u with something behind it. */
  lemma {:induction false} SeamInside(u: string, w: string, i: nat, r: nat, parsable: string -> bool)
    requires Gap(u) == i && i + r < |u| && Run(u[i..]) == r
    ensures Read(u + w, parsable) == BlockCandidates(u[..i], parsable) + Read(u[i + r..] + w, parsable)
  {
    hide BlockCandidates, Read, Blocks, Run, Gap;
    var t := u + w;
    GapConcat(u, w);
    RunStops(u[i..], w);
    assert t[..i] == u[..i] && t[i..] == u[i..] + w && t[i + r..] == u[i + r..] + w;
    ReadBlock(t, i, r, parsable);
  }

  /** The gap of u reaches its end, and runs on through the line feeds that follow. */
  lemma {:induction false} SeamAtEnd(u: string, v: string, i: nat, r: nat, parsable: string -> bool)
    requires Gap(u) == i < |u| && i + r == |u| && Run(u[i..]) == r
    ensures Read(u + ("\n\n" + v), parsable) == BlockCandidates(u[..i], parsable) + Read(v, parsable)
  {
    hide BlockCandidates, Read, Blocks, Gap, Run;
    var w := "\n\n" + v;
    var t, n := u + w, Run(v);
    GapConcat(u, w);
    TwoFeeds(v);
    OnlyFeeds(u[i..]);
    RunConcat(u[i..], w);
    SeamSlices(u, v, i, n);
    ReadBlock(t, i, r + (2 + n), parsable);
    ReadAfterRun(v, parsable);
  }

  lemma SeamSlices(u: string, v: string, i: nat, n: nat)
    requires i <= |u| && n <= |v|
    ensures var t := u + ("\n\n" + v);
            t[..i] == u[..i] && t[i..] == u[i..] + ("\n\n" + v) && t[|u| + (2 + n)..] == v[n..]
  {
  }

  lemma OnlyFeeds(s: string)
    requires Run(s) == |s|
    ensures forall k :: 0 <= k < |s| ==> s[k] == '\n'
  {
  }

  /** u has no gap and ends in a line feed. */
  lemma {:induction false} SeamAfterFeed(u: string, v: string, parsable: string -> bool)
    requires Gap(u) == |u| && u != [] && u[|u| - 1] == '\n'
    ensures Read(u + ("\n\n" + v), parsable) == Read(u, parsable) + Read(v, parsable)
  {
    hide BlockCandidates, Read, Blocks, Run, Gap;
    var n := |u| - 1;
    var w := "\n\n" + v;
    var t := u + w;
    GapAtSeam(u, v);
    TwoFeeds(v);
    BlockPadding(u[..n], parsable);
    FeedSlices(u, v, Run(v));
    ReadBlock(t, n, 3 + Run(v), parsable);
    ReadLast(u, parsable);
    ReadAfterRun(v, parsable);
  }

  lemma FeedSlices(u: string, v: string, r: nat)
    requires u != [] && u[|u| - 1] == '\n' && r <= |v|
    ensures var n, t := |u| - 1, u + ("\n\n" + v);
            t[..n] == u[..n] && u == u[..n] + "\n" && t[n..] == "\n" + ("\n\n" + v) && t[n + (3 + r)..] == v[r..]
  {
  }

  /** u has no gap and does not end in a line feed. */
  lemma {:induction false} SeamPlain(u: string, v: string, parsable: string -> bool)
    requires Gap(u) == |u| && !(u != [] && u[|u| - 1] == '\n')
    ensures Read(u + ("\n\n" + v), parsable) == Read(u, parsable) + Read(v, parsable)
  {
    hide BlockCandidates, Read, Blocks, Run, Gap;
    var n := |u|;
    var w := "\n\n" + v;
    var t := u + w;
    GapAtSeam(u, v);
    TwoFeeds(v);
    assert t[..n] == u && t[n..] == w && t[n + (2 + Run(v))..] == v[Run(v)..];
    ReadBlock(t, n, 2 + Run(v), parsable);
    ReadLast(u, parsable);
    ReadAfterRun(v, parsable);
  }

  /** A blank line between two streams: what is read is what each gives, in order. */
  lemma {:induction false} ReadSeam(u: string, v: string, parsable: string -> bool)
    ensures Read(u + ("\n\n" + v), parsable) == Read(u, parsable) + Read(v, parsable)
    decreases |u|
  {
    hide BlockCandidates, Read, Blocks, Run, Gap;
    var i := Gap(u);
    if i < |u| {
      var r := Run(u[i..]);
      ReadBlock(u, i, r, parsable);
      if i + r < |u| {
        GapIsRun(u);
        SeamInside(u, "\n\n" + v, i, r, parsable);
        ReadSeam(u[i + r..], v, parsable);
      } else {
        assert u[i + r..] == [];
        SeamAtEnd(u, v, i, r, parsable);
        ReadNothing(parsable);
        assert BlockCandidates(u[..i], parsable) + [] == BlockCandidates(u[..i], parsable);
      }
    } else if u != [] && u[|u| - 1] == '\n' {
      SeamAfterFeed(u, v, parsable);
    } else {
      SeamPlain(u, v, parsable);
    }
  }

  lemma ReadNothing(parsable: string -> bool)
    ensures Read([], parsable) == []
  {
    EmptyBlock(parsable);
    OneBlock([], parsable);
  }

  lemma {:induction false} RunStops(a: string, b: string)
    requires Run(a) < |a|
    ensures Run(a + b) == Run(a)
  {
    RunConcat(a[..Run(a)], a[Run(a)..] + b);
    assert a + b == a[..Run(a)] + (a[Run(a)..] + b);
    assert (a[Run(a)..] + b)[0] == a[Run(a)];
  }

  // ---------------------------------------------------------------- streams with any line ends

  lemma {:induction false} NormalizePlain(s: string)
    requires forall c <- s :: c != '\r'
    ensures Normalize(s) == s
  {
    if s != [] {
      assert forall c :: c in s[1..] ==> c in s;
      NormalizePlain(s[1..]);
      assert s[0] in s && s == [s[0]] + s[1..];
      assert ([s[0]] + CrLfToLf(s[1..]))[1..] == CrLfToLf(s[1..]);
    }
  }

  lemma {:induction false} CrToLfConcat(a: string, b: string)
    ensures CrToLf(a + b) == CrToLf(a) + CrToLf(b)
  {
    if a == [] {
      assert a + b == b;
    } else {
      assert (a + b)[0] == a[0] && (a + b)[1..] == a[1..] + b;
      CrToLfConcat(a[1..], b);
    }
  }

  /** Only a CR at the very end of a joins up with a line feed that follows. */
  lemma {:induction false} CrLfConcat(a: string, b: string)
    requires !(a != [] && a[|a| - 1] == '\r' && b != [] && b[0] == '\n')
    ensures CrLfToLf(a + b) == CrLfToLf(a) + CrLfToLf(b)
    decreases |a|
  {
    var t := a + b;
    if a == [] {
      assert t == b;
    } else if |a| > 1 && a[0] == '\r' && a[1] == '\n' {
      assert t[0] == '\r' && t[1] == '\n' && t[2..] == a[2..] + b;
      CrLfConcat(a[2..], b);
    } else {
      assert t[0] == a[0] && t[1..] == a[1..] + b;
      if |a| > 1 { assert t[1] == a[1]; } else if b != [] { assert t[1] == b[0]; }
      CrLfConcat(a[1..], b);
    }
  }

  /** Normalizing across the seam of two streams. */
  lemma NormalizeSeam(a: string, b: string)
    ensures var n := Normalize(a + "\n\n" + b);
            if a != [] && a[|a| - 1] == '\r'
            then && n == Normalize(a[..|a| - 1]) + ("\n\n" + Normalize(b))
                 && Normalize(a) == Normalize(a[..|a| - 1]) + "\n"
            else n == Normalize(a) + ("\n\n" + Normalize(b))
  {
    hide CrLfToLf, CrToLf;
    FeedsNormalize(b);
    if a != [] && a[|a| - 1] == '\r' {
      var front := a[..|a| - 1];
      assert a == front + "\r" && a + "\n\n" + b == front + ("\r\n" + ("\n" + b));
      CrLfConcat(front, "\r\n" + ("\n" + b));
      CrLfConcat(front, "\r");
      CrToLfConcat(CrLfToLf(front), CrLfToLf("\r\n" + ("\n" + b)));
      CrToLfConcat(CrLfToLf(front), CrLfToLf("\r"));
    } else {
      assert a + "\n\n" + b == a + ("\n\n" + b);
      CrLfConcat(a, "\n\n" + b);
      CrToLfConcat(CrLfToLf(a), CrLfToLf("\n\n" + b));
    }
  }

  lemma FeedFirst(s: string)
    ensures CrLfToLf("\n" + s) == "\n" + CrLfToLf(s) && CrToLf("\n" + s) == "\n" + CrToLf(s)
    ensures CrLfToLf("\r" + ("\n" + s)) == "\n" + CrLfToLf(s)
  {
    assert ("\n" + s)[1..] == s && ("\r" + ("\n" + s))[2..] == s;
  }

  lemma LoneReturn()
    ensures CrLfToLf("\r") == "\r" && CrToLf(CrLfToLf("\r")) == "\n"
  {
    assert "\r"[1..] == [];
  }

  lemma FeedsNormalize(b: string)
    ensures CrToLf(CrLfToLf("\n\n" + b)) == "\n\n" + CrToLf(CrLfToLf(b))
    ensures CrToLf(CrLfToLf("\r\n" + ("\n" + b))) == "\n\n" + CrToLf(CrLfToLf(b))
    ensures CrToLf(CrLfToLf("\r")) == "\n"
  {
    hide CrLfToLf, CrToLf;
    var x := CrLfToLf(b);
    assert "\n\n" + b == "\n" + ("\n" + b) && "\r\n" + ("\n" + b) == "\r" + ("\n" + ("\n" + b));
    assert "\n" + ("\n" + CrToLf(x)) == "\n\n" + CrToLf(x);
    FeedFirst(b);
    FeedFirst("\n" + b);
    FeedFirst(x);
    FeedFirst("\n" + x);
    LoneReturn();
  }

  /** The candidates of two streams joined by a blank line are those of the first, then those of
      the second, whatever line ends they use. */
  lemma CandidatesJoin(a: string, b: string, parsable: string -> bool)
    ensures Candidates(a + "\n\n" + b, parsable) == Candidates(a, parsable) + Candidates(b, parsable)
  {
    hide CandidatesOfBlocks, Blocks, Normalize;
    NormalizeSeam(a, b);
    if a != [] && a[|a| - 1] == '\r' {
      var x := Normalize(a[..|a| - 1]);
      ReadSeam(x, Normalize(b), parsable);
      ReadBeforeFeed(x, parsable);
    } else {
      ReadSeam(Normalize(a), Normalize(b), parsable);
    }
  }

  /** A line feed behind a stream changes nothing. */
  lemma ReadBeforeFeed(s: string, parsable: string -> bool)
    ensures Read(s + "\n", parsable) == Read(s, parsable)
  {
    hide Read;
    // put two streams with nothing in the second behind s, with and without the line feed
    ReadSeam(s + "\n", [], parsable);
    ReadSeam(s, "\n", parsable);
    assert (s + "\n") + ("\n\n" + []) == s + ("\n\n" + "\n");
    ReadNothing(parsable);
    ReadAfterFeed([], parsable);
    assert "\n" + [] == "\n";
    assert Read(s + "\n", parsable) + [] == Read(s + "\n", parsable) && Read(s, parsable) + [] == Read(s, parsable);
  }

  lemma {:induction false} FragmentsConcat(a: seq<string>, b: seq<string>, extract: string -> Option<string>)
    ensures Fragments(a + b, extract) == Fragments(a, extract) + Fragments(b, extract)
    decreases |b|
  {
    if b == [] {
      assert a + b == a;
    } else {
      var n := |b| - 1;
      Strings.LastOfTwo(a, b);
      FragmentsConcat(a, b[..n], extract);
      var last := match extract(b[n]) case Some(f) => [f] case None => [];
      Strings.Associates(Fragments(a, extract), Fragments(b[..n], extract), last);
    }
  }

  lemma {:induction false} JoinAllConcat(a: seq<string>, b: seq<string>)
    ensures JoinAll(a + b) == JoinAll(a) + JoinAll(b)
  {
    if a == [] {
      assert a + b == b;
    } else {
      assert (a + b)[0] == a[0] && (a + b)[1..] == a[1..] + b;
      JoinAllConcat(a[1..], b);
    }
  }

  /** Summaries of joined streams add their counts and append their text. */
  lemma {:induction false} SummariesJoin(
    a: string, b: string, parsable: string -> bool, extract: string -> Option<string>)
    ensures var x, y, z := SummaryOf(a, parsable, extract), SummaryOf(b, parsable, extract),
                           SummaryOf(a + "\n\n" + b, parsable, extract);
            z.fragmentCount == x.fragmentCount + y.fragmentCount && z.summary == x.summary + y.summary
  {
    hide Candidates;
    CandidatesJoin(a, b, parsable);
    FragmentsConcat(Candidates(a, parsable), Candidates(b, parsable), extract);
    JoinAllConcat(Fragments(Candidates(a, parsable), extract), Fragments(Candidates(b, parsable), extract));
  }

  /** The same stream with another line end. */
  function WithLineEnd(s: string, end: string): string {
    if s == [] then [] else (if s[0] == '\n' then end else [s[0]]) + WithLineEnd(s[1..], end)
  }

  lemma {:induction false} LineEndsRead(s: string)
    requires forall c <- s :: c != '\r'
    ensures Normalize(WithLineEnd(s, "\r\n")) == s && Normalize(WithLineEnd(s, "\r")) == s
    ensures WithLineEnd(s, "\r") == [] || WithLineEnd(s, "\r")[0] != '\n'
    ensures WithLineEnd(s, "\r\n") == [] || WithLineEnd(s, "\r\n")[0] != '\n'
  {
    if s != [] {
      assert s[0] in s && s == [s[0]] + s[1..];
      assert forall c :: c in s[1..] ==> c in s;
      LineEndsRead(s[1..]);
      OneMore(s[0], WithLineEnd(s[1..], "\r\n"), s[1..]);
      OneMore(s[0], WithLineEnd(s[1..], "\r"), s[1..]);
    }
  }

  lemma OneMore(c: char, t: string, s: string)
    requires c != '\r' && Normalize(t) == s && (t == [] || t[0] != '\n')
    ensures Normalize([c] + t) == [c] + s && Normalize("\r" + t) == "\n" + s && Normalize("\r\n" + t) == "\n" + s
  {
    assert ([c] + t)[1..] == t && ("\r" + t)[1..] == t && ("\r\n" + t)[2..] == t;
    assert CrLfToLf([c] + t) == [c] + CrLfToLf(t);
    assert CrLfToLf("\r" + t) == "\r" + CrLfToLf(t);
    assert CrLfToLf("\r\n" + t) == "\n" + CrLfToLf(t);
    var x := CrLfToLf(t);
    assert ([c] + x)[1..] == x && ("\r" + x)[1..] == x && ("\n" + x)[1..] == x;
  }

  /** Every line end of section 9.2.5 of the HTML Standard reads alike. */
  lemma {:induction false} LineEndsAgree(s: string, parsable: string -> bool)
    requires forall c <- s :: c != '\r'
    ensures Candidates(WithLineEnd(s, "\r\n"), parsable) == Candidates(s, parsable)
    ensures Candidates(WithLineEnd(s, "\r"), parsable) == Candidates(s, parsable)
  {
    LineEndsRead(s);
    NormalizePlain(s);
  }
}
