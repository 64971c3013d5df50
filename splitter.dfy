/** The splitter of the offline extractor (scripts/parse-data.mjs): it cuts
    the subject-matter text into one block per "Project:" header line. */
module BlockSplitter {
  import opened Text
  import opened Types

  // ---------------------------------------------------------------------
  // Splitting the text into project blocks
  // ---------------------------------------------------------------------

  /** The index of the last newline of `s`, or -1. */
  function LastNewline(s: string): (r: int)
    ensures -1 <= r < |s|
    ensures r >= 0 ==> s[r] == '\n' && forall i :: r < i < |s| ==> s[i] != '\n'
    ensures r == -1 ==> forall i :: 0 <= i < |s| ==> s[i] != '\n'
  {
    if s == [] then -1
    else if s[|s| - 1] == '\n' then |s| - 1
    else LastNewline(s[..|s| - 1])
  }

  /** `s.split("\n")`. */
  function SplitLines(s: string): (r: seq<string>)
    ensures |r| >= 1
    decreases |s|
  {
    var i := LastNewline(s);
    if i < 0 then [s] else SplitLines(s[..i]) + [s[i + 1..]]
  }

  /** Splitting and re-joining with newlines gives back the text, and no
      line holds a newline. */
  lemma {:induction false} SplitLinesJoin(s: string)
    ensures Join(SplitLines(s), "\n") == s
    ensures forall k, i :: 0 <= k < |SplitLines(s)| && 0 <= i < |SplitLines(s)[k]| ==> SplitLines(s)[k][i] != '\n'
    decreases |s|
  {
    var i := LastNewline(s);
    if i >= 0 {
      var init := SplitLines(s[..i]);
      SplitLinesJoin(s[..i]);
      var r := init + [s[i + 1..]];
      assert r[..|r| - 1] == init;
      assert s == s[..i] + "\n" + s[i + 1..];
      forall k, j | 0 <= k < |r| && 0 <= j < |r[k]|
        ensures r[k][j] != '\n'
      {
        if k == |r| - 1 {
          assert r[k][j] == s[i + 1 + j];
        } else {
          assert r[k] == init[k];
        }
      }
    }
  }

  const HeaderPrefix: string := "Project:"

  /** The longest prefix of `s` that `.` matches: up to the first line
      terminator. */
  function UpToTerminator(s: string): (r: string)
    ensures r <= s
    ensures forall i :: 0 <= i < |r| ==> !IsLineTerminator(r[i])
    ensures |r| < |s| ==> IsLineTerminator(s[|r|])
  {
    if s == [] || IsLineTerminator(s[0]) then []
    else
      var r := [s[0]] + UpToTerminator(s[1..]);
      assert s == [s[0]] + s[1..];
      r
  }

  predicate HasNonTerminator(s: string) {
    exists p :: 0 <= p < |s| && !IsLineTerminator(s[p])
  }

  /** The trimmed capture of `/^Project:\s*(.+)/` on a line, or None when it
      does not match. */
  function HeaderName(line: string): Option<string> {
    if !(HeaderPrefix <= line) then None else Capture(line[|HeaderPrefix|..])
  }

  /** The trimmed capture of `\s*(.+)` on the text after the colon. `\s*`
      is greedy, so the capture starts at the first non-space and runs to
      the first line terminator; when only white space follows, `\s*` gives
      back a character that `.` accepts and the trimmed capture is empty;
      when nothing `.` accepts follows, there is no match. */
  function Capture(rest: string): Option<string> {
    var w := LeadingSpace(rest);
    if w < |rest| then Some(Trim(UpToTerminator(rest[w..])))
    else if HasNonTerminator(rest) then Some("")
    else None
  }

  predicate IsHeader(line: string) {
    HeaderName(line).Some?
  }

  /** The header name of a header line: trimmed, so with no white space at
      either end. */
  lemma HeaderNameTrimmed(line: string)
    requires IsHeader(line)
    ensures var n := HeaderName(line).value;
            n != [] ==> !IsJsSpace(n[0]) && !IsJsSpace(n[|n| - 1])
    ensures HeaderPrefix <= line
  {
  }

  /** A line that starts with the prefix is matched on what follows it. */
  lemma HeaderNameOfPrefixed(rest: string)
    ensures HeaderName(HeaderPrefix + rest) == Capture(rest)
  {
    assert (HeaderPrefix + rest)[|HeaderPrefix|..] == rest;
  }

  /** A header's name: the text after the colon with the white space
      around it removed. */
  lemma CaptureExample()
    ensures Capture(" Kiln") == Some("Kiln")
  {
    assert LeadingSpace(" Kiln") == 1;
    assert " Kiln"[1..] == "Kiln";
    assert UpToTerminator("Kiln") == "Kiln";
    TrimExample();
  }

  lemma TrimExample()
    ensures Trim("Kiln") == "Kiln"
  {
    assert LeadingSpace("Kiln") == 0;
    assert TrailingSpace("Kiln") == 0;
    assert "Kiln"[0..][..4] == "Kiln";
  }

  /** The capture stops at a carriage return, and trimming drops the space
      before it. */
  lemma CaptureCarriageReturnExample()
    ensures Capture("\tNu \r") == Some("Nu")
  {
    assert LeadingSpace("\tNu \r") == 1;
    assert "\tNu \r"[1..] == "Nu \r";
    assert UpToTerminator("Nu \r") == "Nu ";
    TrimTrailingExample();
  }

  lemma TrimTrailingExample()
    ensures Trim("Nu ") == "Nu"
  {
    assert LeadingSpace("Nu ") == 0;
    assert TrailingSpace("Nu ") == 1;
    assert "Nu "[0..][..2] == "Nu";
  }

  /** White space alone after the colon still matches, with an empty name;
      nothing after the colon does not match. */
  lemma CaptureEdgeExamples()
    ensures Capture("   ") == Some("")
    ensures Capture("") == None
  {
    assert LeadingSpace("   ") == 3;
    assert HasNonTerminator("   ") by { assert !IsLineTerminator("   "[0]); }
  }

  /** A line without the prefix, such as the JSON that follows a header, is
      not a header. */
  lemma NotHeaderExample()
    ensures HeaderName("{\"project\": 1}") == None
  {
    assert "{\"project\": 1}"[0] != HeaderPrefix[0];
  }

  datatype Block = Block(name: string, json: string)

  /** The header match of every line, in order. */
  function Matches(lines: seq<string>): (r: seq<Option<string>>)
    ensures |r| == |lines|
    ensures forall k :: 0 <= k < |lines| ==> r[k] == HeaderName(lines[k])
  {
    seq(|lines|, k requires 0 <= k < |lines| => HeaderName(lines[k]))
  }

  /** The block for `name` and its lines, when the name is non-empty and
      there is at least one line (`currentName && currentLines.length`). */
  function Emit(name: string, current: seq<string>, acc: seq<Block>): seq<Block> {
    if name != "" && |current| > 0 then acc + [Block(name, Join(current, "\n"))] else acc
  }

  /** The splitter loop from line `k` on, given each line's header match,
      with the current name (the empty string standing for null), the
      current lines and the blocks so far. */
  function Scan(lines: seq<string>, hs: seq<Option<string>>, k: nat, name: string, current: seq<string>,
                acc: seq<Block>): seq<Block>
    requires |hs| == |lines| && k <= |lines|
    decreases |lines| - k
  {
    if k == |lines| then Emit(name, current, acc)
    else match hs[k]
      case Some(n) => Scan(lines, hs, k + 1, n, [], Emit(name, current, acc))
      case None => Scan(lines, hs, k + 1, name, current + [lines[k]], acc)
  }

  /** The block splitter. */
  method SplitBlocks(text: string) returns (blocks: seq<Block>)
    ensures blocks == Scan(SplitLines(text), Matches(SplitLines(text)), 0, "", [], [])
  {
    var lines := SplitLines(text);
    ghost var hs := Matches(lines);
    var currentName := "";
    var currentLines: seq<string> := [];
    blocks := [];
    for k := 0 to |lines|
      invariant Scan(lines, hs, k, currentName, currentLines, blocks) == Scan(lines, hs, 0, "", [], [])
    {
      var m := HeaderName(lines[k]);
      if m.Some? {
        if currentName != "" && |currentLines| > 0 {
          blocks := blocks + [Block(currentName, Join(currentLines, "\n"))];
        }
        currentName := m.value;
        currentLines := [];
      } else {
        currentLines := currentLines + [lines[k]];
      }
    }
    if currentName != "" && |currentLines| > 0 {
      blocks := blocks + [Block(currentName, Join(currentLines, "\n"))];
    }
  }

  /** The first header at or after `j`, or |lines|. */
  function NextHeader(hs: seq<Option<string>>, j: nat): (r: nat)
    requires j <= |hs|
    ensures j <= r <= |hs|
    ensures r < |hs| ==> hs[r].Some?
    ensures forall m :: j <= m < r ==> hs[m].None?
    decreases |hs| - j
  {
    if j == |hs| || hs[j].Some? then j else NextHeader(hs, j + 1)
  }

  /** Reference definition: the blocks of the headers from the one at `h`
      on. A header's block holds the lines up to the next header; it exists
      when the name is non-empty and that run of lines is not empty. */
  function FromHeader(lines: seq<string>, hs: seq<Option<string>>, h: nat): seq<Block>
    requires |hs| == |lines| && h < |lines| && hs[h].Some?
    decreases |lines| - h
  {
    var name := hs[h].value;
    var e := NextHeader(hs, h + 1);
    (if name != "" && e > h + 1 then [Block(name, Join(lines[h + 1..e], "\n"))] else [])
    + (if e < |lines| then FromHeader(lines, hs, e) else [])
  }

  /** Reference definition of the splitter's output: the lines before the
      first header belong to no block. */
  function Blocks(lines: seq<string>, hs: seq<Option<string>>): seq<Block>
    requires |hs| == |lines|
  {
    var f := NextHeader(hs, 0);
    if f < |lines| then FromHeader(lines, hs, f) else []
  }

  /** The block of the header at `h` whose lines end before `e`, if any. */
  function Part(lines: seq<string>, hs: seq<Option<string>>, h: nat, e: nat): seq<Block>
    requires |hs| == |lines| && h < e <= |lines| && hs[h].Some?
  {
    var name := hs[h].value;
    if name != "" && e > h + 1 then [Block(name, Join(lines[h + 1..e], "\n"))] else []
  }

  /** The loop at the end of the text, after the header at `h`. */
  lemma ScanAtEnd(lines: seq<string>, hs: seq<Option<string>>, h: nat, acc: seq<Block>)
    requires |hs| == |lines| && h < |lines| && hs[h].Some?
    requires forall m :: h < m < |lines| ==> hs[m].None?
    ensures Scan(lines, hs, |lines|, hs[h].value, lines[h + 1..], acc) == acc + FromHeader(lines, hs, h)
  {
    assert NextHeader(hs, h + 1) == |lines|;
    assert FromHeader(lines, hs, h) == Part(lines, hs, h, |lines|) + [];
    assert lines[h + 1..] == lines[h + 1..|lines|];
  }

  lemma AppendAssoc<T>(a: seq<T>, b: seq<T>, c: seq<T>)
    ensures a + b + c == a + (b + c)
  {
  }

  /** The reference blocks from the header at `h`, whose next header is at
      `k`: the block of `h`, then those from `k`. */
  lemma FromHeaderNext(lines: seq<string>, hs: seq<Option<string>>, h: nat, k: nat)
    requires |hs| == |lines| && h < k < |lines| && hs[h].Some? && hs[k].Some?
    requires forall m :: h < m < k ==> hs[m].None?
    ensures FromHeader(lines, hs, h) == Part(lines, hs, h, k) + FromHeader(lines, hs, k)
  {
    assert NextHeader(hs, h + 1) == k;
  }

  /** The loop meeting the header at `k` emits the block of the header at
      `h` and starts afresh. */
  lemma ScanHeaderUnfold(lines: seq<string>, hs: seq<Option<string>>, h: nat, k: nat, acc: seq<Block>)
    requires |hs| == |lines| && h < k < |lines| && hs[h].Some? && hs[k].Some?
    ensures Scan(lines, hs, k, hs[h].value, lines[h + 1..k], acc)
         == Scan(lines, hs, k + 1, hs[k].value, lines[k + 1..k + 1], acc + Part(lines, hs, h, k))
  {
    assert Emit(hs[h].value, lines[h + 1..k], acc) == acc + Part(lines, hs, h, k);
    assert lines[k + 1..k + 1] == [];
  }

  /** The loop meeting the next header at `k`, after the header at `h`. */
  lemma ScanAtHeader(lines: seq<string>, hs: seq<Option<string>>, h: nat, k: nat, acc: seq<Block>)
    requires |hs| == |lines| && h < k < |lines| && hs[h].Some? && hs[k].Some?
    requires forall m :: h < m < k ==> hs[m].None?
    requires Scan(lines, hs, k + 1, hs[k].value, lines[k + 1..k + 1], acc + Part(lines, hs, h, k))
             == acc + Part(lines, hs, h, k) + FromHeader(lines, hs, k)
    ensures Scan(lines, hs, k, hs[h].value, lines[h + 1..k], acc) == acc + FromHeader(lines, hs, h)
  {
    FromHeaderNext(lines, hs, h, k);
    ScanHeaderUnfold(lines, hs, h, k, acc);
    AppendAssoc(acc, Part(lines, hs, h, k), FromHeader(lines, hs, k));
  }

  /** The loop meeting a line that is not a header collects it. */
  lemma {:induction false} ScanLineStep(lines: seq<string>, hs: seq<Option<string>>, h: nat, k: nat, acc: seq<Block>)
    requires |hs| == |lines| && h < k < |lines| && hs[h].Some? && hs[k].None?
    requires forall m :: h < m < k ==> hs[m].None?
    ensures Scan(lines, hs, k, hs[h].value, lines[h + 1..k], acc) == acc + FromHeader(lines, hs, h)
    decreases |lines| - k, 0
  {
    assert lines[h + 1..k] + [lines[k]] == lines[h + 1..k + 1];
    ScanAfterHeader(lines, hs, h, k + 1, acc);
  }

  /** The loop meeting the next header closes the block of the previous
      one and starts over from the new one. */
  lemma {:induction false} ScanHeaderStep(lines: seq<string>, hs: seq<Option<string>>, h: nat, k: nat, acc: seq<Block>)
    requires |hs| == |lines| && h < k < |lines| && hs[h].Some? && hs[k].Some?
    requires forall m :: h < m < k ==> hs[m].None?
    ensures Scan(lines, hs, k, hs[h].value, lines[h + 1..k], acc) == acc + FromHeader(lines, hs, h)
    decreases |lines| - k, 0
  {
    ScanAfterHeader(lines, hs, k, k + 1, acc + Part(lines, hs, h, k));
    ScanAtHeader(lines, hs, h, k, acc);
  }

  /** After the header at `h`, with the lines since it collected, the loop
      produces the blocks so far followed by the reference blocks from `h`. */
  lemma {:induction false} ScanAfterHeader(lines: seq<string>, hs: seq<Option<string>>, h: nat, k: nat,
                                           acc: seq<Block>)
    requires |hs| == |lines| && h < k <= |lines| && hs[h].Some?
    requires forall m :: h < m < k ==> hs[m].None?
    ensures Scan(lines, hs, k, hs[h].value, lines[h + 1..k], acc) == acc + FromHeader(lines, hs, h)
    decreases |lines| - k, 1
  {
    if k == |lines| {
      ScanAtEnd(lines, hs, h, acc);
    } else if hs[k].Some? {
      ScanHeaderStep(lines, hs, h, k, acc);
    } else {
      ScanLineStep(lines, hs, h, k, acc);
    }
  }

  /** Before any header, the collected lines are dropped at the first one. */
  lemma {:induction false} ScanBeforeHeader(lines: seq<string>, hs: seq<Option<string>>, k: nat, current: seq<string>)
    requires |hs| == |lines| && k <= |lines|
    requires forall m :: 0 <= m < k ==> hs[m].None?
    ensures Scan(lines, hs, k, "", current, []) == Blocks(lines, hs)
    decreases |lines| - k
  {
    if k == |lines| {
      assert NextHeader(hs, 0) == |lines|;
    } else if hs[k].Some? {
      assert NextHeader(hs, 0) == k;
      ScanAfterHeader(lines, hs, k, k + 1, []);
      assert lines[k + 1..k + 1] == [];
    } else {
      ScanBeforeHeader(lines, hs, k + 1, current + [lines[k]]);
    }
  }

  /** The splitter loop computes the reference blocks. */
  lemma SplitBlocksCorrect(text: string)
    ensures var lines := SplitLines(text);
            Scan(lines, Matches(lines), 0, "", [], []) == Blocks(lines, Matches(lines))
  {
    var lines := SplitLines(text);
    ScanBeforeHeader(lines, Matches(lines), 0, []);
  }

  /** A block of the header at `i`: its name is the header's non-empty
      name, and it holds the non-empty run of lines after the header up to
      the next one, joined back by newlines. */
  predicate BlockOf(lines: seq<string>, hs: seq<Option<string>>, b: Block, i: nat)
    requires |hs| == |lines|
  {
    && i < |lines| && hs[i].Some? && b.name == hs[i].value && b.name != ""
    && var e := NextHeader(hs, i + 1);
       e > i + 1 && b.json == Join(lines[i + 1..e], "\n")
  }

  lemma {:induction false} FromHeaderShape(lines: seq<string>, hs: seq<Option<string>>, h: nat)
    requires |hs| == |lines| && h < |lines| && hs[h].Some?
    ensures forall b :: b in FromHeader(lines, hs, h) ==> exists i :: h <= i && BlockOf(lines, hs, b, i)
    decreases |lines| - h
  {
    var e := NextHeader(hs, h + 1);
    var p := Part(lines, hs, h, e);
    var rest := if e < |lines| then FromHeader(lines, hs, e) else [];
    assert FromHeader(lines, hs, h) == p + rest;
    if e < |lines| {
      FromHeaderShape(lines, hs, e);
    }
    forall b | b in p + rest
      ensures exists i :: h <= i && BlockOf(lines, hs, b, i)
    {
      if b in p {
        assert BlockOf(lines, hs, b, h);
      } else {
        var i :| e <= i && BlockOf(lines, hs, b, i);
      }
    }
  }

  /** The splitter's blocks: each is the block of some header line, and text
      without a header gives no block. */
  lemma BlocksShape(lines: seq<string>, hs: seq<Option<string>>)
    requires |hs| == |lines|
    ensures forall b :: b in Blocks(lines, hs) ==> exists i :: BlockOf(lines, hs, b, i)
    ensures (forall m :: 0 <= m < |lines| ==> hs[m].None?) ==> Blocks(lines, hs) == []
  {
    var f := NextHeader(hs, 0);
    if f < |lines| {
      FromHeaderShape(lines, hs, f);
    }
  }
}
