/** What one block of an event stream gives, said of its lines alone, and what a summary is made of. */
module SseBlocks {
  import opened Wrappers
  import Strings
  import opened SseSummary

  // ---------------------------------------------------------------- picking from a list

  ghost predicate Increasing(picks: seq<nat>) {
    forall j, k :: 0 <= j < k < |picks| ==> picks[j] < picks[k]
  }

  /** The indexes, smallest first, at which the list has what is wanted. */
  ghost predicate Picks<T>(picks: seq<nat>, list: seq<T>, wanted: T -> bool) {
    Increasing(picks) && forall k: nat :: k in picks <==> k < |list| && wanted(list[k])
  }

  lemma PicksPush<T>(picks: seq<nat>, list: seq<T>, x: T, wanted: T -> bool) returns (more: seq<nat>)
    requires Picks(picks, list, wanted)
    ensures Picks(more, list + [x], wanted) && more == if wanted(x) then picks + [|list|] else picks
  {
    more := if wanted(x) then picks + [|list|] else picks;
    assert forall k :: 0 <= k < |picks| ==> picks[k] in picks;
    forall k: nat
      ensures k in more <==> k < |list| + 1 && wanted((list + [x])[k])
    {
      assert k < |list| ==> (list + [x])[k] == list[k];
    }
  }

  // ---------------------------------------------------------------- lines

  /** A line that carries data: one space after the colon does not count, and a Unicode line or
      paragraph separator keeps it from being one. */
  predicate Carries(line: string, data: string) {
    && (line == "data: " + data || (line == "data:" + data && !(data != [] && data[0] == ' ')))
    && forall c <- data :: c as int != 0x2028 && c as int != 0x2029
  }

  /** text is a field of that name, in capitals or not. */
  predicate FieldNamed(text: string, name: string) {
    && |text| > |name| && text[|name|] == ':'
    && forall k :: 0 <= k < |name| ==> text[k] == name[k] || text[k] as int + 32 == name[k] as int
  }

  /** A line that counts by itself: JSON, and neither a comment nor a field of the stream. */
  predicate Counts(line: string, parsable: string -> bool) {
    var t := Strings.TrimText(line);
    && t != [] && t[0] != ':' && parsable(t)
    && !FieldNamed(t, "event") && !FieldNamed(t, "id") && !FieldNamed(t, "retry")
  }

  ghost predicate IsData(line: string) {
    exists data :: Carries(line, data)
  }

  lemma CarriedIsData(line: string, data: string)
    requires Carries(line, data)
    ensures DataOf(line) == Some(data)
  {
    if line == "data: " + data {
      assert line[..5] == "data:" && line[5..] == " " + data && (" " + data)[1..] == data;
      assert forall c <- line :: c in "data: " || c in data;
    } else {
      assert line[..5] == "data:" && line[5..] == data;
      assert forall c <- line :: c in "data:" || c in data;
    }
  }

  lemma DataIsCarried(line: string)
    requires DataOf(line).Some?
    ensures Carries(line, DataOf(line).value)
  {
    var rest := line[5..];
    assert line == "data:" + rest;
    assert forall c <- rest :: c in line;
    if rest != [] && rest[0] == ' ' {
      assert rest == " " + rest[1..];
      assert line == "data: " + rest[1..];
      assert forall c <- rest[1..] :: c in rest;
    }
  }

  lemma {:induction false} LowerAt(s: string, k: nat)
    requires k < |s|
    ensures |LowerAll(s)| == |s| && LowerAll(s)[k] == Lower(s[k])
  {
    LowerLength(s);
    if k > 0 { LowerAt(s[1..], k - 1); }
  }

  lemma {:induction false} LowerLength(s: string)
    ensures |LowerAll(s)| == |s|
  {
    if s != [] { LowerLength(s[1..]); }
  }

  lemma FieldSpelled(t: string, name: string)
    requires forall c <- name :: 'a' <= c <= 'z'
    ensures StartsWith(LowerAll(t), name + ":") <==> FieldNamed(t, name)
  {
    hide LowerAll;
    LowerLength(t);
    forall k | 0 <= k < |t| ensures LowerAll(t)[k] == Lower(t[k]) { LowerAt(t, k); }
    if |t| > |name| {
      assert StartsWith(LowerAll(t), name + ":") <==> forall k :: 0 <= k <= |name| ==> Lower(t[k]) == (name + ":")[k];
      assert (name + ":")[|name|] == ':';
      assert forall k :: 0 <= k < |name| ==> (name + ":")[k] == name[k] && name[k] in name;
    }
  }

  lemma CountedLine(line: string, parsable: string -> bool)
    ensures LineCandidate(line, parsable) == if Counts(line, parsable) then [Strings.TrimText(line)] else []
  {
    hide LowerAll, FieldNamed;
    var t := Strings.TrimText(line);
    FieldSpelled(t, "event");
    FieldSpelled(t, "id");
    FieldSpelled(t, "retry");
    assert "event" + ":" == "event:" && "id" + ":" == "id:" && "retry" + ":" == "retry:";
  }

  // ---------------------------------------------------------------- a block and its lines

  /** Lines that make up one block: only the first and the last may be empty. */
  predicate OneBlockOf(lines: seq<string>) {
    && lines != []
    && (forall line <- lines, c <- line :: c != '\n' && c != '\r')
    && forall k :: 0 < k < |lines| - 1 ==> lines[k] != []
  }

  lemma {:induction false} JoinCons(line: string, rest: seq<string>)
    requires rest != []
    ensures JoinLines([line] + rest) == line + "\n" + JoinLines(rest)
  {
    assert ([line] + rest)[1..] == rest;
  }

  lemma {:induction false} LineAlone(line: string)
    requires forall c <- line :: c != '\n'
    ensures Lines(line) == [line]
  {
    if line != [] {
      assert forall c :: c in line[1..] ==> c in line;
      assert line[0] in line && line == [line[0]] + line[1..];
      LineAlone(line[1..]);
    }
  }

  lemma {:induction false} LinesStep(line: string, text: string)
    requires forall c <- line :: c != '\n'
    ensures Lines(line + "\n" + text) == [line] + Lines(text)
  {
    var s := line + "\n" + text;
    if line == [] {
      assert s == "\n" + text;
      LinesBefore(text);
    } else {
      assert forall c :: c in line[1..] ==> c in line;
      assert line[0] in line && line == [line[0]] + line[1..] && s[0] == line[0];
      assert s[1..] == line[1..] + "\n" + text;
      LinesStep(line[1..], text);
    }
  }

  lemma {:induction false} LinesOfJoined(lines: seq<string>)
    requires lines != [] && forall line <- lines, c <- line :: c != '\n'
    ensures Lines(JoinLines(lines)) == lines
  {
    assert lines[0] in lines;
    if |lines| == 1 {
      LineAlone(lines[0]);
      assert lines == [lines[0]];
    } else {
      assert forall l :: l in lines[1..] ==> l in lines;
      assert lines == [lines[0]] + lines[1..];
      LinesOfJoined(lines[1..]);
      LinesStep(lines[0], JoinLines(lines[1..]));
    }
  }

  lemma {:induction false} JoinedPlain(lines: seq<string>)
    requires forall line <- lines, c <- line :: c != '\r'
    ensures forall c <- JoinLines(lines) :: c != '\r'
  {
    if |lines| > 0 {
      assert lines[0] in lines && forall l :: l in lines[1..] ==> l in lines;
      JoinedPlain(lines[1..]);
    }
  }

  lemma {:induction false} GapPastLine(line: string, text: string)
    requires forall c <- line :: c != '\n'
    ensures Gap(line) == |line|
    ensures !(text != [] && text[0] == '\n') ==> Gap(line + "\n" + text) == |line| + 1 + Gap(text)
  {
    var s := line + "\n" + text;
    if line == [] {
      assert s == ['\n'] + text;
      GapCons('\n', text);
    } else {
      assert forall c :: c in line[1..] ==> c in line;
      assert line[0] in line && s[0] == line[0] && s[1..] == line[1..] + "\n" + text;
      GapPastLine(line[1..], text);
    }
  }

  /** Only the last of the lines may be empty. */
  lemma {:induction false} NoGap(lines: seq<string>)
    requires lines != [] && forall line <- lines, c <- line :: c != '\n'
    requires forall k :: 0 < k < |lines| - 1 ==> lines[k] != []
    ensures Gap(JoinLines(lines)) == |JoinLines(lines)|
    ensures |lines| > 1 && lines[0] != [] ==> JoinLines(lines) != [] && JoinLines(lines)[0] != '\n'
    ensures |lines| == 1 ==> JoinLines(lines) == [] || JoinLines(lines)[0] != '\n'
  {
    hide Gap;
    assert lines[0] in lines && (lines[0] != [] ==> lines[0][0] in lines[0]);
    if |lines| == 1 {
      GapPastLine(lines[0], []);
    } else {
      var rest := lines[1..];
      assert forall l :: l in rest ==> l in lines;
      assert forall k :: 0 <= k < |rest| ==> rest[k] == lines[k + 1];
      NoGap(rest);
      GapPastLine(lines[0], JoinLines(rest));
    }
  }

  /** Text of one block is read as that block. */
  lemma BlockRead(lines: seq<string>, parsable: string -> bool)
    requires OneBlockOf(lines)
    ensures Candidates(JoinLines(lines), parsable) == BlockCandidates(JoinLines(lines), parsable)
    ensures Lines(JoinLines(lines)) == lines
  {
    hide Lines, JoinLines, Blocks, Normalize, BlockCandidates, Gap;
    LinesOfJoined(lines);
    JoinedPlain(lines);
    NormalizePlain(JoinLines(lines));
    NoGap(lines);
    ReadLast(JoinLines(lines), parsable);
  }

  // ---------------------------------------------------------------- what a block gives

  /** The data lines of a block are found in order. */
  lemma {:induction false} DataPicked(lines: seq<string>) returns (picks: seq<nat>)
    ensures Picks(picks, lines, line => IsData(line))
    ensures |picks| == |DataLines(lines)|
    ensures forall i :: 0 <= i < |picks| ==> picks[i] < |lines| && Carries(lines[picks[i]], DataLines(lines)[i])
  {
    if lines == [] {
      picks := [];
    } else {
      hide Carries, DataOf;
      var n := |lines| - 1;
      var before := DataPicked(lines[..n]);
      assert lines == lines[..n] + [lines[n]];
      DataLinesConcat(lines[..n], [lines[n]]);
      var last := DataOf(lines[n]);
      assert DataLines([lines[n]]) == if last.Some? then [last.value] else [] by { OneDataLine(lines[n]); }
      hide DataLines;
      if last.Some? { DataIsCarried(lines[n]); }
      if d :| Carries(lines[n], d) { CarriedIsData(lines[n], d); }
      assert IsData(lines[n]) <==> last.Some?;
      hide IsData, Picks;
      picks := PicksPush(before, lines[..n], lines[n], line => IsData(line));
    }
  }

  lemma OneDataLine(line: string)
    ensures DataLines([line]) == match DataOf(line) case Some(d) => [d] case None => []
  {
    assert [line][1..] == [];
  }

  /** A block with data lines gives their data, joined by line feeds and trimmed, unless that is
      empty, whatever other lines stand between them. */
  lemma DataBlock(lines: seq<string>, parsable: string -> bool) returns (picks: seq<nat>, data: seq<string>)
    requires OneBlockOf(lines) && exists k :: 0 <= k < |lines| && IsData(lines[k])
    ensures Picks(picks, lines, line => IsData(line))
    ensures |data| == |picks|
    ensures forall i :: 0 <= i < |picks| ==> picks[i] < |lines| && Carries(lines[picks[i]], data[i])
    ensures var payload := Strings.TrimText(JoinLines(data));
            Candidates(JoinLines(lines), parsable) == if payload == [] then [] else [payload]
  {
    hide Lines, JoinLines, DataLines, Carries, Candidates, LineCandidates;
    BlockRead(lines, parsable);
    picks := DataPicked(lines);
    data := DataLines(lines);
    var k :| 0 <= k < |lines| && IsData(lines[k]);
    assert k in picks;
  }

  lemma {:induction false} CountedPicked(lines: seq<string>, parsable: string -> bool) returns (picks: seq<nat>)
    ensures Picks(picks, lines, line => Counts(line, parsable))
    ensures |picks| == |LineCandidates(lines, parsable)|
    ensures forall i :: 0 <= i < |picks| ==>
              picks[i] < |lines| && LineCandidates(lines, parsable)[i] == Strings.TrimText(lines[picks[i]])
  {
    if lines == [] {
      picks := [];
    } else {
      hide Counts, LineCandidate;
      var n := |lines| - 1;
      var before := CountedPicked(lines[..n], parsable);
      CountedLine(lines[n], parsable);
      assert LineCandidates(lines, parsable) ==
             LineCandidates(lines[..n], parsable) + LineCandidate(lines[n], parsable);
      hide LineCandidates;
      assert lines == lines[..n] + [lines[n]];
      picks := PicksPush(before, lines[..n], lines[n], line => Counts(line, parsable));
    }
  }

  /** A block without data lines gives its own trimmed text if that is JSON, and else those of its
      trimmed lines that count. */
  lemma OtherBlock(lines: seq<string>, parsable: string -> bool) returns (picks: seq<nat>)
    requires OneBlockOf(lines) && forall line <- lines :: !IsData(line)
    ensures Picks(picks, lines, line => Counts(line, parsable))
    ensures var text, given := Strings.TrimText(JoinLines(lines)), Candidates(JoinLines(lines), parsable);
            if text == [] then given == []
            else if parsable(text) then given == [text]
            else && |given| == |picks|
                 && forall i :: 0 <= i < |picks| ==>
                      picks[i] < |lines| && given[i] == Strings.TrimText(lines[picks[i]])
  {
    hide Lines, JoinLines, DataLines, Carries, Candidates, LineCandidates, Counts;
    BlockRead(lines, parsable);
    var none := DataPicked(lines);
    if none != [] { var line := OnePicked(none, lines, line => IsData(line)); }
    picks := CountedPicked(lines, parsable);
  }

  /** A single data line, with or without the space. */
  lemma OneLine(text: string, parsable: string -> bool)
    requires forall c <- text :: c != '\n' && c != '\r' && c as int != 0x2028 && c as int != 0x2029
    ensures var given := if Strings.TrimText(text) == [] then [] else [Strings.TrimText(text)];
            Candidates("data: " + text, parsable) == given && Candidates("data:" + text, parsable) == given
  {
    hide Candidates;
    OneLineOf("data: " + text, text, parsable);
    if text != [] && text[0] == ' ' {
      assert "data:" + text == "data: " + text[1..];
      assert forall c :: c in text[1..] ==> c in text;
      OneLineOf("data:" + text, text[1..], parsable);
    } else {
      OneLineOf("data:" + text, text, parsable);
    }
  }

  lemma OneLineOf(line: string, data: string, parsable: string -> bool)
    requires Carries(line, data) && forall c <- data :: c != '\n' && c != '\r'
    ensures var given := if Strings.TrimText(data) == [] then [] else [Strings.TrimText(data)];
            Candidates(line, parsable) == given
  {
    hide Candidates, Strings.TrimText;
    assert forall c <- line :: c in "data: " || c in data;
    var lines := [line];
    assert IsData(lines[0]);
    var picks, all := DataBlock(lines, parsable);
    OnlyPick(picks, line, line => IsData(line));
    CarriesOne(line, data, all[0]);
    assert all == [data];
  }

  lemma OnePicked<T>(picks: seq<nat>, list: seq<T>, wanted: T -> bool) returns (x: T)
    requires Picks(picks, list, wanted) && picks != []
    ensures x in list && wanted(x)
  {
    assert picks[0] in picks;
    x := list[picks[0]];
  }

  lemma OnlyPick<T>(picks: seq<nat>, x: T, wanted: T -> bool)
    requires Picks(picks, [x], wanted) && wanted(x)
    ensures picks == [0]
  {
    assert [x][0] == x && 0 in picks;
    forall k | 0 <= k < |picks|
      ensures picks[k] < 1
    {
      assert picks[k] in picks;
    }
    FewPicks(picks, 1);
  }

  lemma {:induction false} FewPicks(picks: seq<nat>, n: nat)
    requires Increasing(picks) && forall k :: 0 <= k < |picks| ==> picks[k] < n
    ensures |picks| <= n
  {
    if picks != [] { FewPicks(picks[..|picks| - 1], picks[|picks| - 1]); }
  }

  lemma CarriesOne(line: string, a: string, b: string)
    requires Carries(line, a) && Carries(line, b)
    ensures a == b
  {
    CarriedIsData(line, a);
    CarriedIsData(line, b);
  }

  // ---------------------------------------------------------------- what a summary is made of

  lemma FragmentsUnfold(payloads: seq<string>, extract: string -> Option<string>)
    requires payloads != []
    ensures var n := |payloads| - 1; var f := extract(payloads[n]);
            Fragments(payloads, extract) == Fragments(payloads[..n], extract) + if f.Some? then [f.value] else []
  {
  }

  lemma {:induction false} FragmentsPicked(payloads: seq<string>, extract: string -> Option<string>)
    returns (picks: seq<nat>)
    ensures Picks(picks, payloads, p => extract(p).Some?)
    ensures |picks| == |Fragments(payloads, extract)|
    ensures forall i :: 0 <= i < |picks| ==>
              picks[i] < |payloads| && extract(payloads[picks[i]]) == Some(Fragments(payloads, extract)[i])
  {
    if payloads == [] {
      picks := [];
    } else {
      hide Picks, Fragments;
      var n := |payloads| - 1;
      var before := FragmentsPicked(payloads[..n], extract);
      FragmentsUnfold(payloads, extract);
      assert payloads == payloads[..n] + [payloads[n]];
      picks := PicksPush(before, payloads[..n], payloads[n], p => extract(p).Some?);
    }
  }

  /** The pieces make up the whole, one after the other; piece k is what stands from at[k] on. */
  ghost predicate MadeOf(whole: string, pieces: seq<string>, at: seq<nat>) {
    && |at| == |pieces| + 1 && at[0] == 0 && at[|pieces|] == |whole|
    && forall k :: 0 <= k < |pieces| ==> Stands(whole, pieces[k], at[k], at[k + 1])
  }

  predicate Stands(whole: string, piece: string, start: nat, end: nat) {
    start <= end <= |whole| && whole[start..end] == piece
  }

  lemma MadeOfPush(whole: string, pieces: seq<string>, at: seq<nat>, piece: string)
    requires MadeOf(whole, pieces, at)
    ensures MadeOf(whole + piece, pieces + [piece], at + [|whole + piece|])
  {
    forall k | 0 <= k < |pieces|
      ensures Stands(whole + piece, pieces[k], at[k], at[k + 1])
    {
      StandsInFront(whole, piece, pieces[k], at[k], at[k + 1]);
    }
    assert Stands(whole + piece, piece, |whole|, |whole + piece|);
    hide Stands;
  }

  lemma StandsInFront(whole: string, more: string, piece: string, start: nat, end: nat)
    requires Stands(whole, piece, start, end)
    ensures Stands(whole + more, piece, start, end)
  {
    assert (whole + more)[start..end] == whole[start..end];
  }

  lemma {:induction false} JoinedPieces(pieces: seq<string>) returns (at: seq<nat>)
    ensures MadeOf(JoinAll(pieces), pieces, at)
  {
    hide MadeOf;
    if pieces == [] {
      at := [0];
      NoPieces();
    } else {
      var n := |pieces| - 1;
      var before := JoinedPieces(pieces[..n]);
      assert pieces == pieces[..n] + [pieces[n]];
      JoinAllConcat(pieces[..n], [pieces[n]]);
      assert JoinAll([pieces[n]]) == pieces[n] by { assert [pieces[n]][1..] == []; }
      MadeOfPush(JoinAll(pieces[..n]), pieces[..n], before, pieces[n]);
      at := before + [|JoinAll(pieces)|];
    }
  }

  lemma NoPieces()
    ensures MadeOf(JoinAll([]), [], [0])
  {
  }

  /** The summary counts the payloads at which the path finds something, and is what it finds there,
      one piece after the other. */
  lemma SummarySpelled(text: string, parsable: string -> bool, extract: string -> Option<string>)
    returns (picks: seq<nat>, pieces: seq<string>, at: seq<nat>)
    ensures var payloads, r := Candidates(text, parsable), SummaryOf(text, parsable, extract);
            && Picks(picks, payloads, p => extract(p).Some?)
            && r.fragmentCount == |picks| == |pieces| && MadeOf(r.summary, pieces, at)
            && forall i :: 0 <= i < |picks| ==>
                 picks[i] < |payloads| && extract(payloads[picks[i]]) == Some(pieces[i])
  {
    hide Candidates, Fragments, JoinAll, MadeOf, Picks;
    picks := FragmentsPicked(Candidates(text, parsable), extract);
    pieces := Fragments(Candidates(text, parsable), extract);
    at := JoinedPieces(pieces);
  }
}
