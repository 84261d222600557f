/** The handful of Python `str` operations the three utilities rely on, over `string` (a `seq<char>`). */
module Text {

  /** The code points for which Python's `str.isspace()` holds; `str.strip()` and `str.lstrip()`
      with no argument remove exactly these. */
  const Whitespace: set<char> := {
    '\t', '\n', '\U{000B}', '\U{000C}', '\r', '\U{001C}', '\U{001D}', '\U{001E}', '\U{001F}', ' ',
    '\U{0085}', '\U{00A0}', '\U{1680}', '\U{2000}', '\U{2001}', '\U{2002}', '\U{2003}', '\U{2004}',
    '\U{2005}', '\U{2006}', '\U{2007}', '\U{2008}', '\U{2009}', '\U{200A}', '\U{2028}', '\U{2029}',
    '\U{202F}', '\U{205F}', '\U{3000}'
  }

  /** `s.lstrip(cs)`. */
  function LStrip(s: string, cs: set<char>): string
  {
    if s != [] && s[0] in cs then LStrip(s[1..], cs) else s
  }

  /** `s.lstrip(cs)` is the longest suffix of `s` that does not start with a character of `cs`. */
  lemma {:induction false} LStripSpec(s: string, cs: set<char>)
    ensures var r := LStrip(s, cs);
      |r| <= |s| && r == s[|s| - |r|..] &&
      (forall i :: 0 <= i < |s| - |r| ==> s[i] in cs) &&
      (r != [] ==> r[0] !in cs)
  {
    if s != [] && s[0] in cs {
      var r := LStrip(s, cs);
      LStripSpec(s[1..], cs);
      assert s[1..][|s| - 1 - |r|..] == s[|s| - |r|..];
      forall i | 0 < i < |s| - |r|
        ensures s[i] in cs
      {
        assert s[i] == s[1..][i - 1];
      }
    }
  }

  /** `s.rstrip(cs)`. */
  function RStrip(s: string, cs: set<char>): string
  {
    if s != [] && s[|s| - 1] in cs then RStrip(s[..|s| - 1], cs) else s
  }

  /** `s.rstrip(cs)` is the longest prefix of `s` that does not end with a character of `cs`. */
  lemma {:induction false} RStripSpec(s: string, cs: set<char>)
    ensures var r := RStrip(s, cs);
      |r| <= |s| && r == s[..|r|] &&
      (forall i :: |r| <= i < |s| ==> s[i] in cs) &&
      (r != [] ==> r[|r| - 1] !in cs)
  {
    if s != [] && s[|s| - 1] in cs {
      var r := RStrip(s, cs);
      RStripSpec(s[..|s| - 1], cs);
      assert s[..|s| - 1][..|r|] == s[..|r|];
      forall i | |r| <= i < |s| - 1
        ensures s[i] in cs
      {
        assert s[i] == s[..|s| - 1][i];
      }
    }
  }

  /** `s.strip(cs)`. */
  function Strip(s: string, cs: set<char>): string
  {
    RStrip(LStrip(s, cs), cs)
  }

  /** `s[a..b]` is what is left of `s` once characters of `front` are cut from its start and characters
      of `back` from its end, as far as they go. */
  predicate Cut(s: string, a: int, b: int, front: set<char>, back: set<char>)
  {
    0 <= a <= b <= |s| &&
    (forall i :: 0 <= i < a ==> s[i] in front) &&
    (forall i :: b <= i < |s| ==> s[i] in back) &&
    (a < b ==> s[a] !in front && s[b - 1] !in back)
  }

  /** A cut is determined by the two sets: any two cuts of `s` leave the same text. */
  lemma CutUnique(s: string, a: int, b: int, a2: int, b2: int, front: set<char>, back: set<char>)
    requires Cut(s, a, b, front, back) && Cut(s, a2, b2, front, back)
    ensures s[a..b] == s[a2..b2]
  {
    if a < b && a2 < b2 {
      assert a == a2;
      assert b == b2;
    } else if a < b {
      assert false;
    } else if a2 < b2 {
      assert false;
    }
  }

  /** A cut of a prefix of `s` is a cut of `s` when the rest of `s` is made of `back` characters. */
  lemma CutWiden(s: string, c: int, a: int, b: int, front: set<char>, back: set<char>)
    requires 0 <= c <= |s| && Cut(s[..c], a, b, front, back)
    requires forall i :: c <= i < |s| ==> s[i] in back
    ensures Cut(s, a, b, front, back) && s[..c][a..b] == s[a..b]
  {
    assert forall i :: 0 <= i < c ==> s[..c][i] == s[i];
  }

  /** `s.rstrip(cs)` cuts nothing at the start and the characters of `cs` at the end. */
  lemma RStripCut(s: string, cs: set<char>)
    ensures Cut(s, 0, |RStrip(s, cs)|, {}, cs) && RStrip(s, cs) == s[..|RStrip(s, cs)|]
  {
    RStripSpec(s, cs);
  }

  /** `s.strip(cs)` is the cut of `s` by `cs` at both ends: only characters of `cs` are removed, and
      none is left at either end. */
  lemma StripSpec(s: string, cs: set<char>)
    ensures var a := |s| - |LStrip(s, cs)|;
      Cut(s, a, a + |Strip(s, cs)|, cs, cs) && Strip(s, cs) == s[a..a + |Strip(s, cs)|]
  {
    var l := LStrip(s, cs);
    var r := RStrip(l, cs);
    LStripSpec(s, cs);
    RStripSpec(l, cs);
    CutOfParts(s, |s| - |l|, l, r, cs);
  }

  /** Cutting a run of `cs` characters from the start and then from the end of what is left is a cut. */
  lemma CutOfParts(s: string, a: int, l: string, r: string, cs: set<char>)
    requires 0 <= a <= |s| && l == s[a..] && |r| <= |l| && r == l[..|r|]
    requires forall i :: 0 <= i < a ==> s[i] in cs
    requires forall i :: |r| <= i < |l| ==> l[i] in cs
    requires l != [] ==> l[0] !in cs
    requires r != [] ==> r[|r| - 1] !in cs
    ensures Cut(s, a, a + |r|, cs, cs) && r == s[a..a + |r|]
  {
    assert s[a..][..|r|] == s[a..a + |r|];
    forall i | a + |r| <= i < |s|
      ensures s[i] in cs
    {
      assert s[i] == l[i - a];
    }
    if r != [] {
      assert s[a] == l[0];
      assert s[a + |r| - 1] == r[|r| - 1];
    }
  }

  /** `s.rstrip(inner).strip(outer)`, when every character of `inner` is in `outer`, is the cut of `s`
      by `outer` at both ends. */
  lemma StripAfterRStrip(s: string, inner: set<char>, outer: set<char>)
    requires inner <= outer
    ensures var content := RStrip(s, inner);
      var a := |content| - |LStrip(content, outer)|;
      var t := Strip(content, outer);
      Cut(s, a, a + |t|, outer, outer) && t == s[a..a + |t|]
  {
    var content := RStrip(s, inner);
    RStripCut(s, inner);
    StripSpec(content, outer);
    var a := |content| - |LStrip(content, outer)|;
    var t := Strip(content, outer);
    CutWiden(s, |content|, a, a + |t|, outer, outer);
  }

  /** A stripped string has nothing left to strip. */
  lemma StripIdempotent(s: string, cs: set<char>)
    ensures Strip(Strip(s, cs), cs) == Strip(s, cs)
    ensures var r := Strip(s, cs); r != [] ==> r[0] !in cs && r[|r| - 1] !in cs
  {
    var l := LStrip(s, cs);
    var r := RStrip(l, cs);
    LStripSpec(s, cs);
    RStripSpec(l, cs);
    LStripSpec(r, cs);
    RStripSpec(r, cs);
    if r != [] {
      assert r[0] == l[0];
    }
    assert LStrip(r, cs) == r;
  }

  predicate StartsWith(s: string, prefix: string)
  {
    |prefix| <= |s| && s[..|prefix|] == prefix
  }

  predicate EndsWith(s: string, suffix: string)
  {
    |suffix| <= |s| && s[|s| - |suffix|..] == suffix
  }

  /** ASCII case mapping: 'A'..'Z' become 'a'..'z', every other character is kept. */
  function LowerChar(c: char): char
  {
    if 'A' <= c <= 'Z' then (c as int + 32) as char else c
  }

  /** `s.lower()`, restricted to ASCII letters. */
  function Lower(s: string): (r: string)
  {
    seq(|s|, i requires 0 <= i < |s| => LowerChar(s[i]))
  }

  /** Lower-casing leaves no upper-case ASCII letter and is a fixed point of itself. */
  lemma LowerIsLower(s: string)
    ensures forall i :: 0 <= i < |s| ==> !('A' <= Lower(s)[i] <= 'Z')
    ensures Lower(Lower(s)) == Lower(s)
  {
  }

  /** `"".join(parts)`. */
  function Concat(parts: seq<string>): string
  {
    if parts == [] then "" else parts[0] + Concat(parts[1..])
  }

  lemma {:induction false} ConcatAppend(a: seq<string>, b: seq<string>)
    ensures Concat(a + b) == Concat(a) + Concat(b)
  {
    if a == [] {
      assert a + b == b;
    } else {
      assert (a + b)[1..] == a[1..] + b;
      ConcatAppend(a[1..], b);
    }
  }

  /** `sep.join(parts)`. */
  function Join(parts: seq<string>, sep: string): string
  {
    if parts == [] then ""
    else if |parts| == 1 then parts[0]
    else parts[0] + sep + Join(parts[1..], sep)
  }

  /** Joining the concatenation of two non-empty lists puts exactly one separator between the halves. */
  lemma {:induction false} JoinAppend(a: seq<string>, b: seq<string>, sep: string)
    requires a != [] && b != []
    ensures Join(a + b, sep) == Join(a, sep) + sep + Join(b, sep)
  {
    if |a| == 1 {
      assert (a + b)[1..] == b;
    } else {
      assert (a + b)[1..] == a[1..] + b;
      JoinAppend(a[1..], b, sep);
    }
  }

  /** Joining no parts gives "", and any other join ends with its last part: no separator is ever
      added after the last part. */
  lemma {:induction false} JoinEnds(parts: seq<string>, sep: string)
    ensures parts == [] ==> Join(parts, sep) == ""
    ensures parts != [] ==> EndsWith(Join(parts, sep), parts[|parts| - 1])
  {
    if |parts| > 1 {
      JoinEnds(parts[1..], sep);
    }
  }

  /** When no part is empty, the joined text is empty exactly when there are no parts. */
  lemma JoinEmpty(parts: seq<string>, sep: string)
    requires forall i :: 0 <= i < |parts| ==> parts[i] != ""
    ensures Join(parts, sep) == "" <==> parts == []
  {
    JoinEnds(parts, sep);
  }

  /** Appending an already-joined block to a list joins like appending the block's own parts: this is
      how a joined sub-result can stand for its lines inside a larger join. */
  lemma JoinExtend(done: seq<string>, lines: seq<string>, more: seq<string>, moreText: string, sep: string)
    requires Join(done, sep) == Join(lines, sep) && (done == [] <==> lines == [])
    requires more != [] && moreText == Join(more, sep)
    ensures Join(done + [moreText], sep) == Join(lines + more, sep)
  {
    if done == [] {
      assert done + [moreText] == [moreText];
      assert lines + more == more;
    } else {
      JoinAppend(done, [moreText], sep);
      JoinAppend(lines, more, sep);
    }
  }
}
