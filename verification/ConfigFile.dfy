/** `createDefaultConfigFile`: copies the sample config, replacing its bootstrap addresses. */
module ConfigFile {
  import opened Base

  const MARKER: string := "bootstrapaddr="

  // ----- Lines -----

  /** Where the first newline at or after `from` is, or the length if there is none. */
  function NewlineFrom(text: string, from: nat): (n: nat)
    requires from <= |text|
    ensures from <= n <= |text|
    ensures n < |text| ==> text[n] == '\n'
    ensures forall i | from <= i < n :: text[i] != '\n'
    decreases |text| - from
  {
    if from == |text| || text[from] == '\n' then from else NewlineFrom(text, from + 1)
  }

  function FirstNewline(text: string): nat {
    NewlineFrom(text, 0)
  }

  /** A line with its newline, which is its only one. */
  predicate IsTerminated(line: string) {
    && |line| > 0 && line[|line| - 1] == '\n'
    && forall i | 0 <= i < |line| - 1 :: line[i] != '\n'
  }

  /** The text as the reader sees it: terminated lines, then a last one without a newline, maybe empty. */
  function Lines(text: string): seq<string>
    decreases |text|
  {
    var n := FirstNewline(text);
    if n == |text| then [text] else [text[..n + 1]] + Lines(text[n + 1..])
  }

  lemma LinesCut(text: string)
    ensures var n := FirstNewline(text);
            Lines(text) == if n == |text| then [text] + [] else [text[..n + 1]] + Lines(text[n + 1..])
  {
  }

  predicate AreLines(lines: seq<string>) {
    && |lines| > 0
    && '\n' !in lines[|lines| - 1]
    && forall i | 0 <= i < |lines| - 1 :: IsTerminated(lines[i])
  }

  function Concat(pieces: seq<string>): string {
    if pieces == [] then "" else pieces[0] + Concat(pieces[1..])
  }

  lemma CutIsLine(text: string)
    requires FirstNewline(text) < |text|
    ensures IsTerminated(text[..FirstNewline(text) + 1])
    ensures text == text[..FirstNewline(text) + 1] + text[FirstNewline(text) + 1..]
  {
  }

  lemma AreLinesCons(line: string, lines: seq<string>)
    requires IsTerminated(line) && AreLines(lines)
    ensures AreLines([line] + lines)
  {
    var all := [line] + lines;
    forall i | 0 <= i < |all| - 1
      ensures IsTerminated(all[i])
    {
      if i > 0 {
        assert all[i] == lines[i - 1];
      }
    }
  }

  lemma ConcatCons(line: string, lines: seq<string>)
    ensures Concat([line] + lines) == line + Concat(lines)
  {
    assert ([line] + lines)[1..] == lines;
  }

  lemma {:induction false} LinesOfText(text: string)
    ensures AreLines(Lines(text)) && Concat(Lines(text)) == text
    decreases |text|
  {
    var n := FirstNewline(text);
    if n < |text| {
      LinesOfText(text[n + 1..]);
      CutIsLine(text);
      AreLinesCons(text[..n + 1], Lines(text[n + 1..]));
      ConcatCons(text[..n + 1], Lines(text[n + 1..]));
    } else {
      ConcatCons(text, []);
      assert [text] + [] == [text];
    }
  }

  lemma FirstNewlineOfLine(line: string, rest: string)
    requires IsTerminated(line)
    ensures FirstNewline(line + rest) == |line| - 1
  {
    var text := line + rest;
    assert forall i | 0 <= i < |line| :: text[i] == line[i];
  }

  /** There is only one way to cut a text into lines. */
  lemma {:induction false} LinesUnique(lines: seq<string>)
    requires AreLines(lines)
    ensures Lines(Concat(lines)) == lines
  {
    if |lines| == 1 {
      assert lines == [lines[0]] + [];
      ConcatCons(lines[0], []);
      assert lines[0] + "" == lines[0];
    } else {
      var rest := lines[1..];
      assert lines == [lines[0]] + rest;
      LinesUnique(rest);
      ConcatCons(lines[0], rest);
      FirstNewlineOfLine(lines[0], Concat(rest));
      LinesOfConcat(lines[0], Concat(rest));
    }
  }

  lemma LinesOfConcat(line: string, rest: string)
    requires FirstNewline(line + rest) == |line| - 1
    ensures Lines(line + rest) == [line] + Lines(rest)
  {
    var text := line + rest;
    assert text[..|line|] == line && text[|line|..] == rest;
  }

  // ----- The rewriting -----

  predicate OccursAt(line: string, part: string, i: nat) {
    i + |part| <= |line| && line[i..i + |part|] == part
  }

  predicate Contains(line: string, part: string) {
    exists i | 0 <= i <= |line| :: OccursAt(line, part, i)
  }

  predicate IsMarked(line: string) {
    Contains(line, MARKER)
  }

  function AddrLine(addr: string): string {
    MARKER + addr + "\n"
  }

  function AddrLines(addrs: seq<string>): seq<string> {
    seq(|addrs|, i requires 0 <= i < |addrs| => AddrLine(addrs[i]))
  }

  /** The pieces that are written for one line. */
  function Written(line: string, addrs: seq<string>): seq<string> {
    if IsMarked(line) then AddrLines(addrs) else [line]
  }

  function WrittenAll(lines: seq<string>, addrs: seq<string>): seq<string> {
    if lines == [] then [] else Written(lines[0], addrs) + WrittenAll(lines[1..], addrs)
  }

  function Rewrite(text: string, addrs: seq<string>): string {
    Concat(WrittenAll(Lines(text), addrs))
  }

  lemma SplitHead<T>(a: seq<T>, b: seq<T>)
    requires a != []
    ensures a == [a[0]] + a[1..] && a + b == [a[0]] + (a[1..] + b)
  {
  }

  lemma {:induction false} ConcatAppend(a: seq<string>, b: seq<string>)
    ensures Concat(a + b) == Concat(a) + Concat(b)
  {
    if a == [] {
      assert a + b == b && "" + Concat(b) == Concat(b);
    } else {
      var rest := a[1..];
      ConcatAppend(rest, b);
      SplitHead(a, b);
      ConcatCons(a[0], rest + b);
      ConcatCons(a[0], rest);
      Regroup(a[0], Concat(rest), Concat(b));
    }
  }

  lemma {:induction false} WrittenAppend(a: seq<string>, b: seq<string>, addrs: seq<string>)
    ensures WrittenAll(a + b, addrs) == WrittenAll(a, addrs) + WrittenAll(b, addrs)
  {
    if a == [] {
      assert a + b == b;
    } else {
      var rest := a[1..];
      WrittenAppend(rest, b, addrs);
      SplitHead(a, b);
      WrittenCons(a[0], rest + b, addrs);
      WrittenCons(a[0], rest, addrs);
      Regroup(Written(a[0], addrs), WrittenAll(rest, addrs), WrittenAll(b, addrs));
    }
  }

  lemma WrittenCons(line: string, lines: seq<string>, addrs: seq<string>)
    ensures WrittenAll([line] + lines, addrs) == Written(line, addrs) + WrittenAll(lines, addrs)
  {
    assert ([line] + lines)[1..] == lines;
  }

  lemma Regroup<T>(a: seq<T>, b: seq<T>, c: seq<T>)
    ensures a + (b + c) == a + b + c
  {
  }

  /** Writes the address lines, up to the first write that fails. */
  method WriteAddrs(dest0: string, addrs: seq<string>, writes: nat -> bool, done0: nat)
    returns (dest: string, done: nat, ok: bool)
    ensures ok ==> dest == dest0 + Concat(AddrLines(addrs))
    ensures dest0 <= dest <= dest0 + Concat(AddrLines(addrs))
    ensures (forall n :: writes(n)) ==> ok
  {
    dest, done := dest0, done0;
    ghost var all := AddrLines(addrs);
    for i := 0 to |addrs|
      invariant dest == dest0 + Concat(all[..i])
    {
      PrefixWritten(dest0, all, i);
      if !writes(done) {
        return dest, done, false;
      }
      done := done + 1;
      Associates(dest0, Concat(all[..i]), all[i]);
      dest := dest + (MARKER + addrs[i] + "\n");
    }
    TakeAll(all);
    return dest, done, true;
  }

  lemma Associates(a: string, b: string, c: string)
    ensures a + (b + c) == a + b + c
  {
  }

  lemma PrefixWritten(dest: string, pieces: seq<string>, i: nat)
    requires i < |pieces|
    ensures Concat(pieces[..i + 1]) == Concat(pieces[..i]) + pieces[i]
    ensures dest + Concat(pieces[..i]) <= dest + Concat(pieces)
  {
    TakeNext(pieces, i);
    ConcatSnoc(pieces[..i], pieces[i]);
    CutConcat(pieces, i);
    PrefixOfLonger(dest, Concat(pieces[..i]), Concat(pieces[i..]));
  }

  lemma CutConcat(pieces: seq<string>, i: nat)
    requires i <= |pieces|
    ensures Concat(pieces) == Concat(pieces[..i]) + Concat(pieces[i..])
  {
    assert pieces == pieces[..i] + pieces[i..];
    ConcatAppend(pieces[..i], pieces[i..]);
  }

  lemma ConcatSnoc(pieces: seq<string>, piece: string)
    ensures Concat(pieces + [piece]) == Concat(pieces) + piece
  {
    ConcatAppend(pieces, [piece]);
    assert [piece] == [piece] + [];
    ConcatCons(piece, []);
    assert piece + "" == piece;
  }

  lemma PrefixOfLonger(a: string, b: string, c: string)
    ensures a + b <= a + (b + c)
  {
  }

  /** Reads up to and including the next newline, or what is left. */
  method ReadString(text: string) returns (line: string, rest: string, eof: bool)
    ensures Lines(text) == [line] + if eof then [] else Lines(rest)
    ensures !eof ==> |rest| < |text|
  {
    var n := FirstNewline(text);
    eof := n == |text|;
    line := if eof then text else text[..n + 1];
    rest := if eof then "" else text[n + 1..];
    LinesCut(text);
  }

  /** Writes what is to be written for one line, up to the first write that fails. */
  method WriteLine(dest0: string, line: string, addrs: seq<string>, writes: nat -> bool, done0: nat)
    returns (dest: string, done: nat, ok: bool)
    ensures ok ==> dest == dest0 + Concat(Written(line, addrs))
    ensures dest0 <= dest <= dest0 + Concat(Written(line, addrs))
    ensures (forall n :: writes(n)) ==> ok
  {
    dest, done := dest0, done0;
    if !writes(done) {
      return dest, done, false;
    }
    done := done + 1;
    if IsMarked(line) {
      assert dest + "" == dest;
      dest := dest + "";
      dest, done, ok := WriteAddrs(dest, addrs, writes, done);
    } else {
      ConcatSnoc([], line);
      assert [] + [line] == [line] && "" + line == line;
      dest := dest + line;
      ok := true;
    }
  }

  /**
    The copying loop.  A failed write ends it with what was written so far, which
    is a prefix of what should have been.
   */
  method CreateDefaultConfig(text: string, addrs: seq<string>, writes: nat -> bool) returns (dest: string, ok: bool)
    ensures ok ==> dest == Rewrite(text, addrs)
    ensures dest <= Rewrite(text, addrs)
    ensures (forall n :: writes(n)) ==> ok
  {
    dest, ok := "", true;
    var rest, eof, done := text, false, 0;
    ghost var lines := Lines(text);
    ghost var read := 0;
    while !eof
      invariant read <= |lines| && lines[read..] == if eof then [] else Lines(rest)
      invariant dest == Concat(WrittenAll(lines[..read], addrs))
      decreases !eof, |rest|
    {
      var line;
      line, rest, eof := ReadString(rest);
      assert lines[read] == line by { assert lines[read..][0] == line; }
      assert lines[read + 1..] == lines[read..][1..];
      WrittenLine(lines, read, addrs);
      dest, done, ok := WriteLine(dest, line, addrs, writes, done);
      if !ok {
        return;
      }
      read := read + 1;
    }
    assert lines[..read] == lines;
  }

  /** What is written for a line goes between what was written before it and what follows. */
  lemma WrittenLine(lines: seq<string>, i: nat, addrs: seq<string>)
    requires i < |lines|
    ensures Concat(WrittenAll(lines[..i + 1], addrs)) ==
            Concat(WrittenAll(lines[..i], addrs)) + Concat(Written(lines[i], addrs))
    ensures Concat(WrittenAll(lines[..i + 1], addrs)) <= Concat(WrittenAll(lines, addrs))
  {
    var line, before, after := lines[i], lines[..i], lines[i + 1..];
    TakeNext(lines, i);
    WrittenAppend(before, [line], addrs);
    WrittenOne(line, addrs);
    ConcatAppend(WrittenAll(before, addrs), Written(line, addrs));
    assert lines == lines[..i + 1] + after;
    WrittenAppend(lines[..i + 1], after, addrs);
    ConcatAppend(WrittenAll(lines[..i + 1], addrs), WrittenAll(after, addrs));
  }

  lemma WrittenOne(line: string, addrs: seq<string>)
    ensures WrittenAll([line], addrs) == Written(line, addrs)
  {
    assert [line] == [line] + [];
    WrittenCons(line, [], addrs);
    assert Written(line, addrs) + [] == Written(line, addrs);
  }

  // ----- Properties of the rewriting -----

  predicate HasMarker(text: string) {
    exists i | 0 <= i < |Lines(text)| :: IsMarked(Lines(text)[i])
  }

  lemma {:induction false} UnmarkedAsWritten(lines: seq<string>, addrs: seq<string>)
    requires forall i | 0 <= i < |lines| :: !IsMarked(lines[i])
    ensures WrittenAll(lines, addrs) == lines
  {
    if lines != [] {
      UnmarkedAsWritten(lines[1..], addrs);
    }
  }

  /** A text without a marked line is copied as it is. */
  lemma UnmarkedIsCopied(text: string, addrs: seq<string>)
    requires !HasMarker(text)
    ensures Rewrite(text, addrs) == text
  {
    LinesOfText(text);
    UnmarkedAsWritten(Lines(text), addrs);
  }

  /** How many lines are marked. */
  function Marked(lines: seq<string>): nat {
    if lines == [] then 0 else (if IsMarked(lines[0]) then 1 else 0) + Marked(lines[1..])
  }

  lemma {:induction false} MarkedAppend(a: seq<string>, b: seq<string>)
    ensures Marked(a + b) == Marked(a) + Marked(b)
  {
    if a == [] {
      assert a + b == b;
    } else {
      MarkedAppend(a[1..], b);
      assert (a + b)[1..] == a[1..] + b;
    }
  }

  predicate NewlineFree(addrs: seq<string>) {
    forall i | 0 <= i < |addrs| :: '\n' !in addrs[i]
  }

  lemma AddrLineIsLine(addr: string)
    requires '\n' !in addr
    ensures IsTerminated(AddrLine(addr)) && IsMarked(AddrLine(addr))
  {
    var line := AddrLine(addr);
    assert OccursAt(line, MARKER, 0);
    forall i | 0 <= i < |line| - 1
      ensures line[i] != '\n'
    {
      if i >= |MARKER| {
        assert line[i] == addr[i - |MARKER|];
      }
    }
  }

  /** The lines of the output: the pieces written, and an empty last line if the last one was replaced. */
  function OutLines(lines: seq<string>, addrs: seq<string>): seq<string>
    requires |lines| > 0
  {
    var last := lines[|lines| - 1];
    WrittenAll(lines, addrs) + if IsMarked(last) then [""] else []
  }

  lemma {:induction false} MarkedAddrLines(lines: seq<string>)
    requires forall i | 0 <= i < |lines| :: IsMarked(lines[i])
    ensures Marked(lines) == |lines|
  {
    if lines != [] {
      MarkedAddrLines(lines[1..]);
    }
  }

  lemma {:induction false} AreLinesPrepend(pieces: seq<string>, lines: seq<string>)
    requires AreLines(lines) && forall i | 0 <= i < |pieces| :: IsTerminated(pieces[i])
    ensures AreLines(pieces + lines)
  {
    if pieces == [] {
      assert pieces + lines == lines;
    } else {
      AreLinesPrepend(pieces[1..], lines);
      AreLinesCons(pieces[0], pieces[1..] + lines);
      assert pieces + lines == [pieces[0]] + (pieces[1..] + lines);
    }
  }

  /** The pieces for one line: terminated if the line is or is replaced, and marked if it is. */
  lemma PiecesOfLine(line: string, addrs: seq<string>)
    requires NewlineFree(addrs)
    ensures IsMarked(line) || IsTerminated(line) ==>
              forall i | 0 <= i < |Written(line, addrs)| :: IsTerminated(Written(line, addrs)[i])
    ensures Marked(Written(line, addrs)) == if IsMarked(line) then |addrs| else 0
  {
    if IsMarked(line) {
      var pieces := AddrLines(addrs);
      forall i | 0 <= i < |pieces|
        ensures IsTerminated(pieces[i]) && IsMarked(pieces[i])
      {
        AddrLineIsLine(addrs[i]);
      }
      MarkedAddrLines(pieces);
    } else {
      assert [line][1..] == [];
    }
  }

  lemma WrittenLastLine(line: string, addrs: seq<string>)
    requires AreLines([line]) && NewlineFree(addrs)
    ensures AreLines(OutLines([line], addrs))
    ensures Marked(OutLines([line], addrs)) == Marked([line]) * |addrs|
  {
    var first := Written(line, addrs);
    var tail := if IsMarked(line) then [""] else [];
    PiecesOfLine(line, addrs);
    assert [line] == [line] + [];
    WrittenCons(line, [], addrs);
    assert OutLines([line], addrs) == first + tail;
    EmptyLine();
    MarkedAppend(first, tail);
    assert Marked([line]) == if IsMarked(line) then 1 else 0;
    if IsMarked(line) {
      AreLinesPrepend(first, [""]);
    } else {
      assert first + tail == [line];
    }
  }

  lemma {:induction false} WrittenLines(lines: seq<string>, addrs: seq<string>)
    requires AreLines(lines) && NewlineFree(addrs)
    ensures AreLines(OutLines(lines, addrs))
    ensures Marked(OutLines(lines, addrs)) == Marked(lines) * |addrs|
  {
    var first, rest := Written(lines[0], addrs), lines[1..];
    PiecesOfLine(lines[0], addrs);
    if |lines| == 1 {
      WrittenLastLine(lines[0], addrs);
      assert lines == [lines[0]];
    } else {
      WrittenLines(rest, addrs);
      assert OutLines(lines, addrs) == first + OutLines(rest, addrs);
      MarkedAppend(first, OutLines(rest, addrs));
      AreLinesPrepend(first, OutLines(rest, addrs));
      Distribute(Marked(rest), |addrs|);
    }
  }

  lemma Distribute(m: nat, n: nat)
    ensures (m + 1) * n == m * n + n
  {
  }

  lemma EmptyLine()
    ensures AreLines([""]) && Marked([""]) == 0 && Concat([""]) == ""
  {
    assert !OccursAt("", MARKER, 0);
    assert [""][1..] == [];
  }

  /** Rewriting multiplies the marked lines by the number of addresses. */
  lemma RewriteMultipliesMarks(text: string, addrs: seq<string>)
    requires NewlineFree(addrs)
    ensures Lines(Rewrite(text, addrs)) == OutLines(Lines(text), addrs)
    ensures Marked(Lines(Rewrite(text, addrs))) == Marked(Lines(text)) * |addrs|
  {
    var lines := Lines(text);
    LinesOfText(text);
    WrittenLines(lines, addrs);
    OutConcat(lines, addrs);
    LinesUnique(OutLines(lines, addrs));
  }

  lemma OutConcat(lines: seq<string>, addrs: seq<string>)
    requires |lines| > 0
    ensures Concat(OutLines(lines, addrs)) == Concat(WrittenAll(lines, addrs))
  {
    var tail := if IsMarked(lines[|lines| - 1]) then [""] else [];
    EmptyLine();
    ConcatAppend(WrittenAll(lines, addrs), tail);
    assert Concat(tail) == "";
    assert Concat(WrittenAll(lines, addrs)) + "" == Concat(WrittenAll(lines, addrs));
  }

  /** The lines that are not replaced. */
  function Others(lines: seq<string>): seq<string> {
    if lines == [] then [] else (if IsMarked(lines[0]) then [] else [lines[0]]) + Others(lines[1..])
  }

  lemma {:induction false} OthersAppend(a: seq<string>, b: seq<string>)
    ensures Others(a + b) == Others(a) + Others(b)
  {
    if a == [] {
      assert a + b == b;
    } else {
      var rest := a[1..];
      OthersAppend(rest, b);
      SplitHead(a, b);
      OthersCons(a[0], rest + b);
      OthersCons(a[0], rest);
    }
  }

  lemma OthersCons(line: string, lines: seq<string>)
    ensures Others([line] + lines) == (if IsMarked(line) then [] else [line]) + Others(lines)
  {
    assert ([line] + lines)[1..] == lines;
  }

  lemma {:induction false} AllMarkedNoOthers(lines: seq<string>)
    requires forall i | 0 <= i < |lines| :: IsMarked(lines[i])
    ensures Others(lines) == []
  {
    if lines != [] {
      AllMarkedNoOthers(lines[1..]);
    }
  }

  lemma {:induction false} OthersOfWritten(lines: seq<string>, addrs: seq<string>)
    requires NewlineFree(addrs)
    ensures Others(WrittenAll(lines, addrs)) == Others(lines)
  {
    if lines != [] {
      OthersOfWritten(lines[1..], addrs);
      var first := Written(lines[0], addrs);
      OthersAppend(first, WrittenAll(lines[1..], addrs));
      if IsMarked(lines[0]) {
        forall i | 0 <= i < |first|
          ensures IsMarked(first[i])
        {
          AddrLineIsLine(addrs[i]);
        }
        AllMarkedNoOthers(first);
      } else {
        assert [lines[0]][1..] == [];
      }
    }
  }

  /** The other lines of the file are the other lines of the sample, in order. */
  lemma RewriteKeepsOthers(text: string, addrs: seq<string>)
    requires NewlineFree(addrs)
    ensures var lines := Lines(text);
            Others(Lines(Rewrite(text, addrs))) == Others(lines) + if IsMarked(lines[|lines| - 1]) then [""] else []
  {
    var lines := Lines(text);
    RewriteMultipliesMarks(text, addrs);
    OthersOfWritten(lines, addrs);
    OthersOfTail(WrittenAll(lines, addrs), IsMarked(lines[|lines| - 1]));
  }

  lemma OthersOfTail(pieces: seq<string>, replaced: bool)
    ensures var tail := if replaced then [""] else []; Others(pieces + tail) == Others(pieces) + tail
  {
    var tail := if replaced then [""] else [];
    OthersAppend(pieces, tail);
    assert !OccursAt("", MARKER, 0);
    assert [""] == [""] + [];
    OthersCons("", []);
  }

  lemma {:induction false} MarkedZero(lines: seq<string>)
    ensures Marked(lines) == 0 <==> forall i | 0 <= i < |lines| :: !IsMarked(lines[i])
  {
    if lines != [] {
      MarkedZero(lines[1..]);
      assert forall i | 0 <= i < |lines| - 1 :: lines[1..][i] == lines[i + 1];
      assert forall i | 0 < i < |lines| :: lines[i] == lines[1..][i - 1];
    }
  }

  /** With one address, what was written is written again. */
  lemma {:induction false} WrittenTwice(lines: seq<string>, addr: string)
    requires '\n' !in addr
    ensures WrittenAll(WrittenAll(lines, [addr]), [addr]) == WrittenAll(lines, [addr])
  {
    if lines != [] {
      WrittenTwice(lines[1..], addr);
      var first := Written(lines[0], [addr]);
      AddrLineIsLine(addr);
      assert |first| == 1 && Written(first[0], [addr]) == first;
      assert first[1..] == [];
      WrittenAppend(first, WrittenAll(lines[1..], [addr]), [addr]);
    }
  }

  /**
    Rewriting a rewritten file changes nothing if and only if there was nothing to
    replace or there is at most one address.
   */
  lemma IdempotentExactly(text: string, addrs: seq<string>)
    requires NewlineFree(addrs)
    ensures Rewrite(Rewrite(text, addrs), addrs) == Rewrite(text, addrs) <==> !HasMarker(text) || |addrs| <= 1
  {
    var once := Rewrite(text, addrs);
    var m := Marked(Lines(text));
    RewriteMultipliesMarks(text, addrs);
    RewriteMultipliesMarks(once, addrs);
    MarkedZero(Lines(text));
    MarkedZero(Lines(once));
    if !HasMarker(text) {
      UnmarkedIsCopied(text, addrs);
    } else if |addrs| == 0 {
      UnmarkedIsCopied(once, addrs);
    } else if |addrs| == 1 {
      SingleAddressIdempotent(text, addrs);
    } else {
      GrowsTwice(m, |addrs|);
    }
  }

  lemma GrowsTwice(m: nat, n: nat)
    requires m > 0 && n > 1
    ensures m * n * n != m * n
  {
    assert m * n * n == (m * n) * n;
  }

  lemma SingleAddressIdempotent(text: string, addrs: seq<string>)
    requires NewlineFree(addrs) && |addrs| == 1
    ensures Rewrite(Rewrite(text, addrs), addrs) == Rewrite(text, addrs)
  {
    var lines := Lines(text);
    var tail := if IsMarked(lines[|lines| - 1]) then [""] else [];
    assert addrs == [addrs[0]];
    LinesOfText(text);
    RewriteMultipliesMarks(text, addrs);
    WrittenTwice(lines, addrs[0]);
    WrittenAppend(WrittenAll(lines, addrs), tail, addrs);
    ConcatAppend(WrittenAll(lines, addrs), WrittenAll(tail, addrs));
    assert !IsMarked("");
    assert WrittenAll([""], addrs) == [""] + WrittenAll([], addrs);
    assert Concat([""]) == "" + Concat([]);
  }
}
