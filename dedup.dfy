/** The line deduplicator of `clean-multiple-lines.py`: every line is reduced to a comparison key, and
    only the first line with each key is written out, verbatim and in input order. */
module Dedup {
  import opened Text

  /** The characters `line.rstrip("\r\n")` removes. */
  const LineEnd: set<char> := {'\r', '\n'}

  /** `canonicalize(line, ignore_case, strip_ws)`: the line without its line ending, then without
      surrounding whitespace if `stripWs`, then lower-cased if `ignoreCase`. */
  function Canonicalize(line: string, ignoreCase: bool, stripWs: bool): string
  {
    var content := RStrip(line, LineEnd);
    var trimmed := if stripWs then Strip(content, Whitespace) else content;
    if ignoreCase then Lower(trimmed) else trimmed
  }

  /** `line[a..b]` is what is left of `line` once its line ending and, when `stripWs`, its surrounding
      whitespace are cut off. Without `stripWs` nothing is cut at the start and only '\r' and '\n' at
      the end; with it, whitespace (which includes both) is cut at both ends. */
  predicate KeySlice(line: string, a: int, b: int, stripWs: bool)
  {
    Cut(line, a, b, if stripWs then Whitespace else {}, if stripWs then Whitespace else LineEnd)
  }

  /** The key is the slice of the line left once the line ending and, when `stripWs` is set, the
      surrounding whitespace are cut off, lower-cased when `ignoreCase` is set. The slice is unique
      (`CutUnique`), so this determines the key. */
  lemma CanonicalizeSpec(line: string, ignoreCase: bool, stripWs: bool)
    ensures exists a, b :: (KeySlice(line, a, b, stripWs) &&
      Canonicalize(line, ignoreCase, stripWs) == (if ignoreCase then Lower(line[a..b]) else line[a..b]))
  {
    var content := RStrip(line, LineEnd);
    var trimmed := if stripWs then Strip(content, Whitespace) else content;
    var a := if stripWs then |content| - |LStrip(content, Whitespace)| else 0;
    TrimmedSlice(line, stripWs);
    assert KeySlice(line, a, a + |trimmed|, stripWs) && trimmed == line[a..a + |trimmed|];
  }

  /** What the key looks like: it never ends in a line end, has no surrounding whitespace when `stripWs`
      is set, no upper-case letter when `ignoreCase` is set, and, with neither option, it is the line
      itself up to a tail made only of '\r' and '\n'. */
  lemma CanonicalizeShape(line: string, ignoreCase: bool, stripWs: bool)
    ensures var key := Canonicalize(line, ignoreCase, stripWs);
      |key| <= |line| &&
      (key != [] ==> key[|key| - 1] !in LineEnd) &&
      (stripWs && key != [] ==> key[0] !in Whitespace && key[|key| - 1] !in Whitespace) &&
      (ignoreCase ==> forall i :: 0 <= i < |key| ==> !('A' <= key[i] <= 'Z')) &&
      (!ignoreCase && !stripWs ==>
        line[..|key|] == key && forall i :: |key| <= i < |line| ==> line[i] in LineEnd)
  {
    var content := RStrip(line, LineEnd);
    RStripSpec(line, LineEnd);
    var trimmed := if stripWs then Strip(content, Whitespace) else content;
    TrimmedSpec(content, stripWs);
    if ignoreCase {
      LowerIsLower(trimmed);
      if trimmed != [] {
        LowerCharClass(trimmed[0]);
        LowerCharClass(trimmed[|trimmed| - 1]);
      }
    }
  }

  /** The optional whitespace strip keeps a line that does not end in a line end that way. */
  lemma TrimmedSpec(content: string, stripWs: bool)
    requires content != [] ==> content[|content| - 1] !in LineEnd
    ensures var trimmed := if stripWs then Strip(content, Whitespace) else content;
      |trimmed| <= |content| &&
      (trimmed != [] ==> trimmed[|trimmed| - 1] !in LineEnd) &&
      (stripWs && trimmed != [] ==> trimmed[0] !in Whitespace && trimmed[|trimmed| - 1] !in Whitespace)
  {
    if stripWs {
      StripIdempotent(content, Whitespace);
      LStripSpec(content, Whitespace);
      RStripSpec(LStrip(content, Whitespace), Whitespace);
    }
  }

  /** The text the key is made from, before lower-casing, is a `KeySlice` of the line. */
  lemma TrimmedSlice(line: string, stripWs: bool)
    ensures var content := RStrip(line, LineEnd);
      var trimmed := if stripWs then Strip(content, Whitespace) else content;
      var a := if stripWs then |content| - |LStrip(content, Whitespace)| else 0;
      KeySlice(line, a, a + |trimmed|, stripWs) && trimmed == line[a..a + |trimmed|]
  {
    if stripWs {
      assert LineEnd <= Whitespace;
      StripAfterRStrip(line, LineEnd, Whitespace);
    } else {
      RStripCut(line, LineEnd);
    }
  }

  /** ASCII lower-casing neither creates nor removes whitespace or line ends. */
  lemma LowerCharClass(c: char)
    ensures LowerChar(c) in Whitespace <==> c in Whitespace
    ensures LowerChar(c) in LineEnd <==> c in LineEnd
  {
    if 'A' <= c <= 'Z' {
      assert 'a' <= LowerChar(c) <= 'z';
      assert c !in Whitespace;
      assert LowerChar(c) !in Whitespace;
    }
  }

  /** A key is its own key: canonicalizing is idempotent, so keys compare like the lines they came from. */
  lemma CanonicalizeIdempotent(line: string, ignoreCase: bool, stripWs: bool)
    ensures var key := Canonicalize(line, ignoreCase, stripWs);
      Canonicalize(key, ignoreCase, stripWs) == key
  {
    var key := Canonicalize(line, ignoreCase, stripWs);
    CanonicalizeShape(line, ignoreCase, stripWs);
    assert RStrip(key, LineEnd) == key;
    if stripWs {
      LStripSpec(key, Whitespace);
      assert LStrip(key, Whitespace) == key;
      RStripSpec(key, Whitespace);
      assert Strip(key, Whitespace) == key;
    }
    if ignoreCase {
      assert Lower(key) == key;
    }
  }

  /** The set `seen` after the lines `lines` were read. */
  function KeysOf(lines: seq<string>, ignoreCase: bool, stripWs: bool): set<string>
  {
    if lines == [] then {}
    else KeysOf(lines[..|lines| - 1], ignoreCase, stripWs) + {Canonicalize(lines[|lines| - 1], ignoreCase, stripWs)}
  }

  /** `seen` holds exactly the keys of the lines read. */
  lemma {:induction false} KeysOfSpec(lines: seq<string>, ignoreCase: bool, stripWs: bool)
    ensures forall key :: key in KeysOf(lines, ignoreCase, stripWs) <==>
      exists j :: 0 <= j < |lines| && Canonicalize(lines[j], ignoreCase, stripWs) == key
  {
    if lines != [] {
      var init := lines[..|lines| - 1];
      KeysOfSpec(init, ignoreCase, stripWs);
      forall key | key in KeysOf(lines, ignoreCase, stripWs)
        ensures exists j :: 0 <= j < |lines| && Canonicalize(lines[j], ignoreCase, stripWs) == key
      {
        if key in KeysOf(init, ignoreCase, stripWs) {
          var j :| 0 <= j < |init| && Canonicalize(init[j], ignoreCase, stripWs) == key;
          assert lines[j] == init[j];
        } else {
          assert Canonicalize(lines[|lines| - 1], ignoreCase, stripWs) == key;
        }
      }
      forall key | exists j :: 0 <= j < |lines| && Canonicalize(lines[j], ignoreCase, stripWs) == key
        ensures key in KeysOf(lines, ignoreCase, stripWs)
      {
        var j :| 0 <= j < |lines| && Canonicalize(lines[j], ignoreCase, stripWs) == key;
        if j < |init| {
          assert init[j] == lines[j];
        }
      }
    }
  }

  /** Line `i` repeats the key of an earlier line, so `dedup_file` drops it. */
  predicate Repeats(lines: seq<string>, i: nat, ignoreCase: bool, stripWs: bool)
    requires i < |lines|
  {
    exists j :: 0 <= j < i && Canonicalize(lines[j], ignoreCase, stripWs) == Canonicalize(lines[i], ignoreCase, stripWs)
  }

  /** The lines written to the output after the lines `lines` were read. */
  function Kept(lines: seq<string>, ignoreCase: bool, stripWs: bool): seq<string>
  {
    if lines == [] then []
    else
      var init := lines[..|lines| - 1];
      var line := lines[|lines| - 1];
      if Canonicalize(line, ignoreCase, stripWs) in KeysOf(init, ignoreCase, stripWs) then Kept(init, ignoreCase, stripWs)
      else Kept(init, ignoreCase, stripWs) + [line]
  }

  /** The input positions of the lines written, in the order they are written. */
  function KeptPositions(lines: seq<string>, ignoreCase: bool, stripWs: bool): seq<nat>
  {
    if lines == [] then []
    else
      var init := lines[..|lines| - 1];
      var line := lines[|lines| - 1];
      if Canonicalize(line, ignoreCase, stripWs) in KeysOf(init, ignoreCase, stripWs) then KeptPositions(init, ignoreCase, stripWs)
      else KeptPositions(init, ignoreCase, stripWs) + [|lines| - 1]
  }

  /** The output is a subsequence of the input: written line `k` is input line `KeptPositions[k]`,
      verbatim, and the positions strictly increase. */
  lemma {:induction false} KeptIsSubsequence(lines: seq<string>, ignoreCase: bool, stripWs: bool)
    ensures var kept := Kept(lines, ignoreCase, stripWs);
      var pos := KeptPositions(lines, ignoreCase, stripWs);
      |pos| == |kept| &&
      (forall k :: 0 <= k < |pos| ==> pos[k] < |lines| && kept[k] == lines[pos[k]]) &&
      (forall k, m :: 0 <= k < m < |pos| ==> pos[k] < pos[m])
  {
    if lines != [] {
      KeptIsSubsequence(lines[..|lines| - 1], ignoreCase, stripWs);
    }
  }

  /** A line is written exactly when no earlier line has the same key. */
  lemma {:induction false} KeptExactlyFirsts(lines: seq<string>, ignoreCase: bool, stripWs: bool)
    ensures forall i :: 0 <= i < |lines| ==>
      (i in KeptPositions(lines, ignoreCase, stripWs) <==> !Repeats(lines, i, ignoreCase, stripWs))
  {
    if lines != [] {
      var n := |lines| - 1;
      var init := lines[..n];
      KeptExactlyFirsts(init, ignoreCase, stripWs);
      KeysOfSpec(init, ignoreCase, stripWs);
      KeptIsSubsequence(init, ignoreCase, stripWs);
      forall i | 0 <= i < |lines|
        ensures i in KeptPositions(lines, ignoreCase, stripWs) <==> !Repeats(lines, i, ignoreCase, stripWs)
      {
        if i < n {
          assert Repeats(lines, i, ignoreCase, stripWs) <==> Repeats(init, i, ignoreCase, stripWs) by {
            assert forall j :: 0 <= j <= i ==> lines[j] == init[j];
          }
          assert n !in KeptPositions(init, ignoreCase, stripWs);
        } else {
          assert Repeats(lines, n, ignoreCase, stripWs) <==>
            Canonicalize(lines[n], ignoreCase, stripWs) in KeysOf(init, ignoreCase, stripWs) by {
            assert forall j :: 0 <= j < n ==> lines[j] == init[j];
          }
        }
      }
    }
  }

  /** No two written lines share a key. */
  lemma {:induction false} KeptKeysDistinct(lines: seq<string>, ignoreCase: bool, stripWs: bool)
    ensures var kept := Kept(lines, ignoreCase, stripWs);
      forall k, m :: 0 <= k < m < |kept| ==>
        Canonicalize(kept[k], ignoreCase, stripWs) != Canonicalize(kept[m], ignoreCase, stripWs)
  {
    if lines != [] {
      var n := |lines| - 1;
      var init := lines[..n];
      KeptKeysDistinct(init, ignoreCase, stripWs);
      KeptIsSubsequence(init, ignoreCase, stripWs);
      KeysOfSpec(init, ignoreCase, stripWs);
      var before := Kept(init, ignoreCase, stripWs);
      var pos := KeptPositions(init, ignoreCase, stripWs);
      forall k | 0 <= k < |before|
        ensures Canonicalize(before[k], ignoreCase, stripWs) in KeysOf(init, ignoreCase, stripWs)
      {
        assert before[k] == init[pos[k]];
      }
    }
  }

  /** The keys of the written lines are exactly the keys of the input, which is what `seen` holds. */
  lemma {:induction false} KeptCoversKeys(lines: seq<string>, ignoreCase: bool, stripWs: bool)
    ensures forall key :: key in KeysOf(lines, ignoreCase, stripWs) <==>
      exists k :: 0 <= k < |Kept(lines, ignoreCase, stripWs)| && Canonicalize(Kept(lines, ignoreCase, stripWs)[k], ignoreCase, stripWs) == key
  {
    if lines != [] {
      var init := lines[..|lines| - 1];
      var line := lines[|lines| - 1];
      KeptCoversKeys(init, ignoreCase, stripWs);
      var before := Kept(init, ignoreCase, stripWs);
      var after := Kept(lines, ignoreCase, stripWs);
      assert after == before || after == before + [line];
      forall key | key in KeysOf(lines, ignoreCase, stripWs)
        ensures exists k :: 0 <= k < |after| && Canonicalize(after[k], ignoreCase, stripWs) == key
      {
        if key in KeysOf(init, ignoreCase, stripWs) {
          var k :| 0 <= k < |before| && Canonicalize(before[k], ignoreCase, stripWs) == key;
          assert after[k] == before[k];
        } else {
          assert after == before + [line] && after[|before|] == line;
        }
      }
      forall key | exists k :: 0 <= k < |after| && Canonicalize(after[k], ignoreCase, stripWs) == key
        ensures key in KeysOf(lines, ignoreCase, stripWs)
      {
        var k :| 0 <= k < |after| && Canonicalize(after[k], ignoreCase, stripWs) == key;
        if k < |before| {
          assert after[k] == before[k];
        }
      }
    }
  }

  /** One line is written per distinct key: `kept` ends up as the number of distinct keys of the input. */
  lemma {:induction false} KeptCountsKeys(lines: seq<string>, ignoreCase: bool, stripWs: bool)
    ensures |Kept(lines, ignoreCase, stripWs)| == |KeysOf(lines, ignoreCase, stripWs)|
  {
    if lines != [] {
      var init := lines[..|lines| - 1];
      var key := Canonicalize(lines[|lines| - 1], ignoreCase, stripWs);
      var seen := KeysOf(init, ignoreCase, stripWs);
      KeptCountsKeys(init, ignoreCase, stripWs);
      assert KeysOf(lines, ignoreCase, stripWs) == seen + {key};
      if key in seen {
        assert seen + {key} == seen;
      } else {
        assert |seen + {key}| == |seen| + 1;
        assert |Kept(lines, ignoreCase, stripWs)| == |Kept(init, ignoreCase, stripWs)| + 1;
      }
    }
  }

  /** `dedup_file` over the lines of the input file, each with its own line ending: returns the lines
      written to the output and the counts `(kept, dropped)`. */
  method DedupFile(lines: seq<string>, ignoreCase: bool, stripWs: bool)
    returns (written: seq<string>, kept: nat, dropped: nat)
    ensures written == Kept(lines, ignoreCase, stripWs)
    ensures kept == |written| == |KeysOf(lines, ignoreCase, stripWs)|
    ensures kept + dropped == |lines|
  {
    var seen: set<string> := {};
    written := [];
    kept, dropped := 0, 0;
    for i := 0 to |lines|
      invariant seen == KeysOf(lines[..i], ignoreCase, stripWs)
      invariant written == Kept(lines[..i], ignoreCase, stripWs)
      invariant kept == |written| && kept + dropped == i
    {
      var line := lines[i];
      assert lines[..i + 1][..i] == lines[..i];
      var key := Canonicalize(line, ignoreCase, stripWs);
      if key in seen {
        dropped := dropped + 1;
        continue;
      }
      seen := seen + {key};
      written := written + [line];
      kept := kept + 1;
    }
    assert lines[..|lines|] == lines;
    KeptCountsKeys(lines, ignoreCase, stripWs);
  }
}
