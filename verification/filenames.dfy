/**
 * File-name sanitisers: the GUI's, which names the output folder after an
 * NCTools folder path, and the plot exporter's, which names one PNG per tool.
 */
module Filenames {
  import opened PyBuiltins
  import opened CharReplace

  // ------------------------------------------------------------ the GUI's sanitiser

  /** The characters Windows refuses in a file name, in the order the loop replaces them. */
  const InvalidFileChars: string := "<>:\"/\\|?*"

  /** The characters trimmed from the end before the whitespace strip. */
  const TrailingTrim: set<char> := {'.', ' '}

  /** `name.rstrip(". ").strip()` of the replaced name. */
  function Trimmed(name: string): string {
    Strip(RStrip(ReplacedAll(name, InvalidFileChars), TrailingTrim), Whitespace())
  }

  /** What the GUI's `sanitize_filename(name)` returns. */
  function SanitizedFilename(name: string): string {
    var t := Trimmed(name);
    if t != [] then t else "output"
  }

  /** The GUI's `sanitize_filename`: one replacement round per invalid character, the two trims, and "output" for an empty result. */
  method SanitizeFilename(name: string) returns (r: string)
    ensures r == SanitizedFilename(name)
  {
    var s := name;
    for i := 0 to |InvalidFileChars|
      invariant s == ReplacedAll(name, InvalidFileChars[..i])
    {
      assert InvalidFileChars[..i + 1][..i] == InvalidFileChars[..i];
      s := Replace(s, InvalidFileChars[i], "_");
    }
    assert InvalidFileChars[..|InvalidFileChars|] == InvalidFileChars;
    s := Strip(RStrip(s, TrailingTrim), Whitespace());
    r := if s != [] then s else "output";
  }

  /** Where the trimmed text starts inside the text it was cut from. */
  function TrimOffset(s: string, tail: set<char>, ws: set<char>): nat {
    var x := RStrip(s, tail);
    |x| - |LStrip(x, ws)|
  }

  /** A prefix of a suffix of a prefix is a slice. */
  lemma PieceOfTrims<T>(s: seq<T>, x: seq<T>, l: seq<T>, t: seq<T>)
    requires |x| <= |s| && x == s[..|x|] && |l| <= |x| && l == x[|x| - |l|..] && |t| <= |l| && t == l[..|t|]
    ensures |x| - |l| + |t| <= |s| && t == s[|x| - |l|..|x| - |l| + |t|]
  {
    assert t == s[..|x|][|x| - |l|..][..|t|];
  }

  /**
   * Right-stripping `s` to `x`, left-stripping `x` to `l` and right-stripping `l` to `t` leaves
   * the contiguous piece of `s` that starts where the left strip stopped.
   */
  lemma TrimIsPiece(s: string, tail: set<char>, ws: set<char>, x: string, l: string, t: string)
    requires x == RStrip(s, tail) && l == LStrip(x, ws) && t == RStrip(l, ws)
    ensures PieceAt(t, s, |x| - |l|)
  {
    PieceOfTrims(s, x, l, t);
  }

  /**
   * The two trims, for any two trim sets: the result holds no character the text did not hold,
   * and neither starts nor ends with a character of the last trim set.
   */
  lemma TrimmedShape(s: string, bad: string, tail: set<char>, ws: set<char>, x: string, l: string, t: string)
    requires forall c :: c in s ==> c !in bad
    requires x == RStrip(s, tail) && l == LStrip(x, ws) && t == RStrip(l, ws)
    ensures forall c :: c in t ==> c !in bad
    ensures t == [] || (t[0] !in ws && t[|t| - 1] !in ws)
  {
    RStripClean(s, tail, bad);
    LStripClean(x, ws, bad);
    RStripClean(l, ws, bad);
    TrimEnds(x, l, t, ws);
  }

  /** Right-stripping brings no new character in. */
  lemma RStripClean(s: string, cs: set<char>, bad: string)
    requires forall c :: c in s ==> c !in bad
    ensures forall c :: c in RStrip(s, cs) ==> c !in bad
  {
    PrefixIn(s, RStrip(s, cs));
  }

  /** Left-stripping brings no new character in. */
  lemma LStripClean(s: string, cs: set<char>, bad: string)
    requires forall c :: c in s ==> c !in bad
    ensures forall c :: c in LStrip(s, cs) ==> c !in bad
  {
    SuffixIn(s, LStrip(s, cs));
  }

  lemma PrefixIn<T>(s: seq<T>, r: seq<T>)
    requires |r| <= |s| && r == s[..|r|]
    ensures forall c :: c in r ==> c in s
  {
    forall c | c in r
      ensures c in s
    {
      var k :| 0 <= k < |r| && r[k] == c;
      assert s[k] == c;
    }
  }

  lemma SuffixIn<T>(s: seq<T>, r: seq<T>)
    requires |r| <= |s| && r == s[|s| - |r|..]
    ensures forall c :: c in r ==> c in s
  {
    forall c | c in r
      ensures c in s
    {
      var k :| 0 <= k < |r| && r[k] == c;
      assert s[|s| - |r| + k] == c;
    }
  }

  /** Stripping from both ends leaves no character of the set at either end. */
  lemma TrimEnds(x: string, l: string, t: string, ws: set<char>)
    requires l == LStrip(x, ws) && t == RStrip(l, ws)
    ensures t == [] || (t[0] !in ws && t[|t| - 1] !in ws)
  {
    LStripHead(x, ws);
    RStripEnds(l, ws);
    if t != [] {
      assert t[0] == l[0];
    }
  }

  lemma LStripHead(x: string, ws: set<char>)
    ensures LStrip(x, ws) == [] || LStrip(x, ws)[0] !in ws
  {
  }

  lemma RStripEnds(l: string, ws: set<char>)
    ensures var r := RStrip(l, ws);
      |r| <= |l| && r == l[..|r|] && (r == [] || r[|r| - 1] !in ws)
  {
  }

  /** `t` is the piece of `s` that starts at `i`. */
  predicate PieceAt(t: string, s: string, i: nat) {
    i + |t| <= |s| && t == s[i..i + |t|]
  }

  /**
   * The replacement loop and the two trims, for any replaced characters and trim sets: the
   * result holds no replaced character, and neither starts nor ends with a character of `ws`.
   */
  lemma TrimmedFacts(name: string, bad: string, tail: set<char>, ws: set<char>)
    requires '_' !in bad
    ensures var t := Strip(RStrip(ReplacedAll(name, bad), tail), ws);
      && (forall c :: c in t ==> c !in bad)
      && (t == [] || (t[0] !in ws && t[|t| - 1] !in ws))
  {
    var s := ReplacedAll(name, bad);
    var x := RStrip(s, tail);
    var l := LStrip(x, ws);
    var t := RStrip(l, ws);
    ReplacedClean(name, bad);
    TrimmedShape(s, bad, tail, ws, x, l, t);
    assert Strip(x, ws) == t;
  }

  /** For any trim sets, the trimmed text is the piece of the text at `TrimOffset`. */
  lemma TrimmedPiece(s: string, tail: set<char>, ws: set<char>)
    ensures PieceAt(Strip(RStrip(s, tail), ws), s, TrimOffset(s, tail, ws))
  {
    var x := RStrip(s, tail);
    var l := LStrip(x, ws);
    var t := RStrip(l, ws);
    TrimIsPiece(s, tail, ws, x, l, t);
    assert Strip(x, ws) == t;
    assert TrimOffset(s, tail, ws) == |x| - |l|;
  }

  /** When the end trim also covers `ws`, the trimmed text does not end with a character of `tail` either. */
  lemma TrimmedEnd(s: string, tail: set<char>, ws: set<char>)
    requires ws <= tail
    ensures var t := Strip(RStrip(s, tail), ws);
      t == [] || t[|t| - 1] !in tail
  {
    RStripEnds(s, tail);
    StripKeepsEnd(RStrip(s, tail), tail, ws);
  }

  /** Stripping `ws` from text whose last character is outside `tail`, and so outside `ws`, keeps that last character. */
  lemma StripKeepsEnd(x: string, tail: set<char>, ws: set<char>)
    requires ws <= tail && (x == [] || x[|x| - 1] !in tail)
    ensures var t := Strip(x, ws);
      t == [] || t[|t| - 1] !in tail
  {
    var l := LStrip(x, ws);
    var t := RStrip(l, ws);
    assert Strip(x, ws) == t;
    if t != [] {
      CorrectedEnd(x, l, t, tail, ws);
    }
  }

  /** The fallback "output" has no invalid character, and no whitespace, dot or space. */
  lemma OutputValid()
    ensures forall c :: c in "output" ==> c !in InvalidFileChars && c !in Whitespace() && c !in TrailingTrim
  {
    forall c | c in "output"
      ensures c !in InvalidFileChars && c !in Whitespace() && c !in TrailingTrim
    {
      var i :| 0 <= i < 6 && "output"[i] == c;
    }
  }

  /**
   * The sanitised name is never empty and holds none of `<>:"/\|?*`; unless it is the fallback
   * "output", it neither starts nor ends with whitespace.
   */
  lemma FilenameValid(name: string)
    ensures var r := SanitizedFilename(name);
      && r != []
      && (forall c :: c in r ==> c !in InvalidFileChars)
      && (Trimmed(name) == [] ==> r == "output")
      && (Trimmed(name) != [] ==> r[0] !in Whitespace() && r[|r| - 1] !in Whitespace())
  {
    assert '_' !in InvalidFileChars;
    TrimmedFacts(name, InvalidFileChars, TrailingTrim, Whitespace());
    if Trimmed(name) == [] {
      OutputValid();
      assert "output"[0] in "output" && "output"[5] in "output";
    }
  }

  /** Before the trims, the replacement turns exactly the invalid characters into '_' and keeps every other character in place. */
  lemma FilenameReplacesInPlace(name: string)
    ensures var s := ReplacedAll(name, InvalidFileChars);
      |s| == |name| && forall k :: 0 <= k < |name| ==> s[k] == if name[k] in InvalidFileChars then '_' else name[k]
  {
    assert '_' !in InvalidFileChars;
    ReplacedAllPointwise(name, InvalidFileChars);
  }

  /** The trimmed name is the replaced name cut at both ends: the piece that starts at `TrimOffset`. */
  lemma FilenameIsPiece(name: string)
    ensures PieceAt(Trimmed(name), ReplacedAll(name, InvalidFileChars), TrimOffset(ReplacedAll(name, InvalidFileChars), TrailingTrim, Whitespace()))
  {
    TrimmedPiece(ReplacedAll(name, InvalidFileChars), TrailingTrim, Whitespace());
  }

  /**
   * As written, the dot trim runs before the whitespace strip, so a name whose final dot is
   * followed by whitespace comes out ending in '.', which Windows drops from folder names.
   */
  lemma FilenameCanEndInDot(stem: string, ws: char)
    requires stem != [] && ws in Whitespace() && ws !in TrailingTrim
    requires stem[0] !in Whitespace() && stem[|stem| - 1] !in Whitespace()
    requires forall c :: c in stem ==> c !in InvalidFileChars
    ensures var r := SanitizedFilename(stem + ['.', ws]);
      r == stem + ['.'] && r[|r| - 1] == '.'
  {
    var name := stem + ['.', ws];
    assert '_' !in InvalidFileChars && '.' !in InvalidFileChars && '.' !in Whitespace();
    assert ws !in InvalidFileChars;
    DotThenSpace(stem, ws, InvalidFileChars, TrailingTrim, Whitespace());
  }

  /** The generic core of the counterexample: nothing to replace, nothing to right-trim, and the whitespace strip stops at the dot. */
  lemma DotThenSpace(stem: string, w: char, bad: string, tail: set<char>, ws: set<char>)
    requires stem != [] && w in ws && w !in tail && '.' !in ws && '.' !in bad && w !in bad && '_' !in bad
    requires stem[0] !in ws && stem[|stem| - 1] !in ws
    requires forall c :: c in stem ==> c !in bad
    ensures Strip(RStrip(ReplacedAll(stem + ['.', w], bad), tail), ws) == stem + ['.']
  {
    var name := stem + ['.', w];
    forall c | c in name
      ensures c !in bad
    {
      var k :| 0 <= k < |name| && name[k] == c;
      if k < |stem| {
        assert stem[k] == c;
      }
    }
    ReplacedAllNone(name, bad);
    assert RStrip(name, tail) == name;
    assert LStrip(name, ws) == name;
    assert name[..|name| - 1] == stem + ['.'];
    assert RStrip(stem + ['.'], ws) == stem + ['.'];
  }

  /** The corrected trim: whitespace, dots and spaces all come off the end, whitespace off the front. */
  function TrimmedCorrected(name: string): string {
    Strip(RStrip(ReplacedAll(name, InvalidFileChars), TrailingTrim + Whitespace()), Whitespace())
  }

  function SanitizedFilenameCorrected(name: string): string {
    var t := TrimmedCorrected(name);
    if t != [] then t else "output"
  }

  /** After right-stripping `tail` and `ws`, stripping `ws` keeps the last character, which is in neither set. */
  lemma CorrectedEnd(x: string, l: string, t: string, tail: set<char>, ws: set<char>)
    requires ws <= tail && (x == [] || x[|x| - 1] !in tail) && l == LStrip(x, ws) && t == RStrip(l, ws) && t != []
    ensures t[|t| - 1] !in tail && t[|t| - 1] !in ws
  {
    assert l == x[|x| - |l|..];
    assert t == l;
  }

  /** The corrected sanitiser keeps every guarantee of the original, and its result never ends in '.' or ' '. */
  lemma FilenameCorrectedValid(name: string)
    ensures var r := SanitizedFilenameCorrected(name);
      && r != []
      && (forall c :: c in r ==> c !in InvalidFileChars)
      && r[0] !in Whitespace()
      && r[|r| - 1] !in Whitespace() && r[|r| - 1] !in TrailingTrim
  {
    assert '_' !in InvalidFileChars;
    CorrectedFacts(name, InvalidFileChars, TrailingTrim, Whitespace());
    if TrimmedCorrected(name) == [] {
      OutputValid();
      assert "output"[0] in "output" && "output"[5] in "output";
    }
  }

  /** The corrected trim for any replaced characters and trim sets: clean, and neither end in `ws`, nor the last in `tail`. */
  lemma CorrectedFacts(name: string, bad: string, tail: set<char>, ws: set<char>)
    requires '_' !in bad
    ensures var t := Strip(RStrip(ReplacedAll(name, bad), tail + ws), ws);
      && (forall c :: c in t ==> c !in bad)
      && (t == [] || (t[0] !in ws && t[|t| - 1] !in ws && t[|t| - 1] !in tail))
  {
    TrimmedFacts(name, bad, tail + ws, ws);
    TrimmedEnd(ReplacedAll(name, bad), tail + ws, ws);
    var t := Strip(RStrip(ReplacedAll(name, bad), tail + ws), ws);
    if t != [] {
      NotInUnion(t[|t| - 1], tail, ws);
    }
  }

  lemma NotInUnion(c: char, a: set<char>, b: set<char>)
    requires c !in a + b
    ensures c !in a && c !in b
  {
  }

  // ------------------------------------------------------------ the plot exporter's sanitiser

  /** The characters the plot exporter rewrites to '_' (the backslash is doubled before this step). */
  const PlotInvalid: set<char> := {'<', '>', ':', '"', '/', '\\', '|', '?', '*'}

  /** `"".join("_" if c in bad else c for c in s)` */
  function Underscored(s: string, bad: set<char>): (r: string)
    ensures |r| == |s|
  {
    if s == [] then [] else [if s[0] in bad then '_' else s[0]] + Underscored(s[1..], bad)
  }

  /** What the plot exporter's `sanitize_filename(s)` returns. */
  function PlotFilename(s: string): string {
    Underscored(Replace(s, '\\', "__"), PlotInvalid)
  }

  /** Reference definition, one input character at a time: a backslash becomes "__", another rewritten character "_". */
  function Piece(c: char, bad: set<char>): string {
    if c == '\\' then "__" else if c in bad then "_" else [c]
  }

  function Charwise(s: string, bad: set<char>): string {
    if s == [] then [] else Piece(s[0], bad) + Charwise(s[1..], bad)
  }

  lemma {:induction false} UnderscoredAppend(a: string, b: string, bad: set<char>)
    ensures Underscored(a + b, bad) == Underscored(a, bad) + Underscored(b, bad)
  {
    if a == [] {
      assert a + b == b;
    } else {
      assert (a + b)[0] == a[0] && (a + b)[1..] == a[1..] + b;
      UnderscoredAppend(a[1..], b, bad);
      var h := if a[0] in bad then '_' else a[0];
      assert Underscored(a + b, bad) == [h] + (Underscored(a[1..], bad) + Underscored(b, bad));
      assert Underscored(a, bad) == [h] + Underscored(a[1..], bad);
    }
  }

  /** Replacing backslashes and then rewriting is the same as rewriting each character on its own. */
  lemma {:induction false} PlotFilenameCharwise(s: string, bad: set<char>)
    requires '_' !in bad
    ensures Underscored(Replace(s, '\\', "__"), bad) == Charwise(s, bad)
  {
    if s != [] {
      var head := if s[0] == '\\' then "__" else [s[0]];
      assert Replace(s, '\\', "__") == head + Replace(s[1..], '\\', "__");
      UnderscoredAppend(head, Replace(s[1..], '\\', "__"), bad);
      PlotFilenameCharwise(s[1..], bad);
      assert Underscored(head, bad) == Piece(s[0], bad) by {
        if s[0] == '\\' {
          assert head[1..] == "_";
          assert Underscored(head, bad) == ['_'] + Underscored("_", bad);
        }
      }
    }
  }

  /** The character-wise rewrite grows the text by one character per backslash and leaves no rewritten character. */
  lemma {:induction false} CharwiseShape(s: string, bad: set<char>)
    requires '_' !in bad
    ensures |Charwise(s, bad)| == |s| + CountChar(s, '\\')
    ensures forall c :: c in Charwise(s, bad) ==> c !in bad
  {
    if s != [] {
      CharwiseShape(s[1..], bad);
      var p := Piece(s[0], bad);
      assert |p| == if s[0] == '\\' then 2 else 1;
      assert forall c :: c in p ==> c !in bad;
      assert Charwise(s, bad) == p + Charwise(s[1..], bad);
    }
  }

  /**
   * The plot exporter's file name turns each backslash into "__" and each of `<>:"/|?*` into
   * "_", keeps every other character, holds none of them afterwards, and is longer than the
   * input by the number of backslashes.
   */
  lemma PlotFilenameValid(s: string)
    ensures PlotFilename(s) == Charwise(s, PlotInvalid)
    ensures |PlotFilename(s)| == |s| + CountChar(s, '\\')
    ensures forall c :: c in PlotFilename(s) ==> c !in PlotInvalid
  {
    assert '_' !in PlotInvalid;
    PlotFilenameCharwise(s, PlotInvalid);
    CharwiseShape(s, PlotInvalid);
  }
}
