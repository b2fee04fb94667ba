/**
 * Worksheet names for the by-folder workbook: the sanitiser that makes a
 * folder path acceptable as an Excel sheet name, the de-duplicator that
 * keeps the names of one workbook distinct, and the choice of the
 * Components column that holds an extension's reach.
 */
module SheetNames {
  import opened Wrappers
  import opened PyBuiltins
  import opened Arith
  import opened CharReplace

  /** The characters Excel refuses in a sheet name. */
  const BadChars: string := "[]:*?/\\"

  /** The longest sheet name Excel accepts. */
  const MaxSheetName: nat := 31

  // ------------------------------------------------------------ sanitising

  /** `name.strip().strip("'")` of the replaced name: what remains before the length cut. */
  function Stripped(name: string): string {
    Strip(Strip(ReplacedAll(name, BadChars), Whitespace()), {'\''})
  }

  /** What `_sanitize_sheet_name(name)` returns. */
  function SanitizedSheetName(name: string): string {
    var t := Stripped(name);
    if t != [] then Prefix(t, MaxSheetName) else "Sheet"
  }

  /**
   * `_sanitize_sheet_name`: replaces each forbidden character by '_', one
   * character of the forbidden set at a time, strips whitespace and then
   * apostrophes, and keeps at most 31 characters, or "Sheet" when nothing
   * is left.
   */
  method SanitizeSheetName(name: string) returns (r: string)
    ensures r == SanitizedSheetName(name)
  {
    var s := name;
    for i := 0 to |BadChars|
      invariant s == ReplacedAll(name, BadChars[..i])
    {
      assert BadChars[..i + 1][..i] == BadChars[..i];
      s := Replace(s, BadChars[i], "_");
    }
    assert BadChars[..|BadChars|] == BadChars;
    s := Strip(Strip(s, Whitespace()), {'\''});
    if s != [] {
      r := Prefix(s, MaxSheetName);
    } else {
      r := "Sheet";
    }
  }

  /** Nothing to strip at either end: stripping leaves the text alone. */
  lemma StripNothing(s: string, cs: set<char>)
    requires s != [] && s[0] !in cs && s[|s| - 1] !in cs
    ensures Strip(s, cs) == s
  {
    assert LStrip(s, cs) == s;
  }

  /** A text that does not start with a character of `cs` keeps a non-empty right strip. */
  lemma RStripKeepsFirst(s: string, cs: set<char>)
    requires s != [] && s[0] !in cs
    ensures RStrip(s, cs) != [] && RStrip(s, cs)[0] == s[0]
  {
  }

  /**
   * The sanitised name has between 1 and 31 characters and none of
   * `[]:*?/\`; it is "Sheet" when stripping leaves nothing, and otherwise
   * the first 31 characters of the stripped name, which does not start
   * with an apostrophe.
   */
  lemma SheetNameValid(name: string)
    ensures var r := SanitizedSheetName(name);
      && 1 <= |r| <= MaxSheetName
      && (forall c :: c in r ==> c !in BadChars)
      && (Stripped(name) == [] ==> r == "Sheet")
      && (Stripped(name) != [] ==> r == Prefix(Stripped(name), MaxSheetName) && r[0] != '\'')
  {
    StrippedClean(name);
    var t := Stripped(name);
    if t != [] {
      PrefixClean(t, Prefix(t, MaxSheetName), BadChars);
    } else {
      FallbackClean();
    }
  }

  /** The fallback name "Sheet" has no forbidden character and no apostrophe. */
  lemma FallbackClean()
    ensures forall c :: c in "Sheet" ==> c !in BadChars && c != '\''
  {
    forall c | c in "Sheet"
      ensures c !in BadChars && c != '\''
    {
      var i :| 0 <= i < 5 && "Sheet"[i] == c;
    }
  }

  /** The stripped name has no forbidden character and does not start with an apostrophe. */
  lemma StrippedClean(name: string)
    ensures forall c :: c in Stripped(name) ==> c !in BadChars
    ensures Stripped(name) == [] || Stripped(name)[0] != '\''
  {
    ReplacedClean(name, BadChars);
    StripsClean(ReplacedAll(name, BadChars), Whitespace(), {'\''}, BadChars);
  }

  /** Stripping twice brings no new character in. */
  lemma StripsClean(s: string, outer: set<char>, inner: set<char>, bad: string)
    requires forall c :: c in s ==> c !in bad
    ensures forall c :: c in Strip(Strip(s, outer), inner) ==> c !in bad
  {
    StripKeeps(s, outer);
    StripKeeps(Strip(s, outer), inner);
  }

  /** Nor does cutting to a prefix. */
  lemma PrefixClean(s: string, p: string, bad: string)
    requires p <= s && forall c :: c in s ==> c !in bad
    ensures forall c :: c in p ==> c !in bad
  {
    forall c | c in p
      ensures c !in bad
    {
      var i :| 0 <= i < |p| && p[i] == c;
      assert s[i] == c;
    }
  }

  /**
   * The length cut can end the name on an apostrophe: a name of more than
   * 31 characters that stripping leaves alone (no forbidden character, and
   * neither whitespace nor an apostrophe at either end) with an apostrophe
   * as its 31st character, such as 30 letters followed by `'b`, comes out
   * as its first 31 characters, the last of them that apostrophe.
   */
  lemma SheetNameCanEndInApostrophe(name: string)
    requires |name| > MaxSheetName && name[MaxSheetName - 1] == '\''
    requires forall c :: c in name ==> c !in BadChars
    requires name[0] !in Whitespace() && name[0] != '\''
    requires name[|name| - 1] !in Whitespace() && name[|name| - 1] != '\''
    ensures var r := SanitizedSheetName(name);
      |r| == MaxSheetName && r[MaxSheetName - 1] == '\''
  {
    ReplacedAllNone(name, BadChars);
    StripNothing(name, Whitespace());
    StripNothing(name, {'\''});
  }

  /**
   * The sanitiser as its own documentation asks for it: the length cut is
   * followed by a second apostrophe strip, so the name neither starts nor
   * ends with an apostrophe.
   */
  function SanitizedSheetNameTrimmed(name: string): string {
    var t := Stripped(name);
    var u := RStrip(Prefix(t, MaxSheetName), {'\''});
    if u != [] then u else "Sheet"
  }

  /**
   * The corrected sanitiser keeps the length bounds and the forbidden
   * characters out, never puts an apostrophe at either end, and differs
   * from the written one only by dropping trailing apostrophes.
   */
  lemma SheetNameTrimmedValid(name: string)
    ensures var r := SanitizedSheetNameTrimmed(name);
      && 1 <= |r| <= MaxSheetName
      && (forall c :: c in r ==> c !in BadChars)
      && r[0] != '\'' && r[|r| - 1] != '\''
      && r <= SanitizedSheetName(name)
  {
    StrippedClean(name);
    TrimmedCut(Stripped(name), BadChars);
    FallbackClean();
  }

  /** Cutting a clean text that does not start with an apostrophe and stripping apostrophes from the right. */
  lemma TrimmedCut(t: string, bad: string)
    requires forall c :: c in t ==> c !in bad
    requires t != [] ==> t[0] != '\''
    ensures t != [] ==>
      var p := Prefix(t, MaxSheetName);
      var u := RStrip(p, {'\''});
      && 1 <= |u| <= MaxSheetName && u <= p
      && u[0] != '\'' && u[|u| - 1] != '\''
      && forall c :: c in u ==> c !in bad
  {
    if t != [] {
      var p := Prefix(t, MaxSheetName);
      PrefixClean(t, p, bad);
      RStripKeepsFirst(p, {'\''});
      PrefixClean(p, RStrip(p, {'\''}), bad);
    }
  }

  // ------------------------------------------------------------ de-duplication

  /** `RuntimeError`: all 999 suffixed candidates are taken. */
  datatype DedupeError = Exhausted

  /** `f"_{i:02d}"` */
  function Suffix(i: nat): (s: string)
    requires 1 <= i < 1000
    ensures 3 <= |s| <= 4 && s[0] == '_'
    ensures |s| == 3 <==> i < 100
  {
    DecimalWidth(i);
    "_" + ZeroPad(Decimal(i), 2)
  }

  /** Below 1000 a number has at most three decimal digits, and three exactly from 100 on. */
  lemma DecimalWidth(n: nat)
    requires n < 1000
    ensures |Decimal(n)| <= 3
    ensures |Decimal(n)| <= 2 <==> n < 100
  {
    assert Power(10, 3) == 1000;
    DigitsWidth(n, 10, 3);
    if n >= 100 {
      DigitsAtLeast(n);
    } else {
      assert Power(10, 2) == 100;
      DigitsWidth(n, 10, 2);
    }
  }

  /** A number of at least 100 has at least three decimal digits. */
  lemma DigitsAtLeast(n: nat)
    requires n >= 100
    ensures |Decimal(n)| >= 3
  {
    DivStep(n, 10);
    DivStep(n / 10, 10);
    var d := Decimal(n);
    assert d == Decimal(n / 10) + [DigitChar(n % 10)];
    assert Decimal(n / 10) == Decimal(n / 10 / 10) + [DigitChar(n / 10 % 10)];
  }

  /** `base[:(31 - len(suffix))] + suffix` */
  function Candidate(base: string, i: nat): (c: string)
    requires 1 <= i < 1000
    ensures |c| <= MaxSheetName
  {
    Prefix(base, MaxSheetName - |Suffix(i)|) + Suffix(i)
  }

  /** The candidates of one base, numbered 1..999 (the base itself elsewhere). */
  function CandidateOf(base: string): nat -> string {
    (i: nat) => if 1 <= i < 1000 then Candidate(base, i) else base
  }

  /** The first number in `[i, hi)` whose name `f(j)` is not in `used`. */
  function FirstNotIn<T>(f: nat -> T, used: set<T>, i: nat, hi: nat): (r: Option<nat>)
    ensures r.Some? ==> i <= r.value < hi
    decreases hi - i
  {
    if i >= hi then None
    else if f(i) !in used then Some(i)
    else FirstNotIn(f, used, i + 1, hi)
  }

  /** What `_dedupe_sheet_name(name, used)` returns or raises. */
  function Deduped(name: string, used: set<string>): Result<string, DedupeError> {
    if name !in used then Success(name)
    else match FirstNotIn(CandidateOf(name), used, 1, 1000)
      case None => Failure(Exhausted)
      case Some(i) => Success(Candidate(name, i))
  }

  /** The `used` set of one workbook, which `_dedupe_sheet_name` updates in place. */
  class SheetNameSet {
    var used: set<string>

    constructor(names: set<string>)
      ensures used == names
    {
      used := names;
    }

    /**
     * `_dedupe_sheet_name(name, used)`: the name itself when it is new,
     * otherwise the first free suffixed candidate; whatever is returned is
     * added to `used`, and nothing is added when it raises.
     */
    method Dedupe(name: string) returns (r: Result<string, DedupeError>)
      modifies this
      ensures r == Deduped(name, old(used))
      ensures used == if r.Success? then old(used) + {r.value} else old(used)
    {
      if name !in used {
        used := used + {name};
        return Success(name);
      }
      var i := 1;
      while i < 1000
        invariant 1 <= i <= 1000
        invariant used == old(used)
        invariant FirstNotIn(CandidateOf(name), used, 1, 1000) == FirstNotIn(CandidateOf(name), used, i, 1000)
      {
        var candidate := Candidate(name, i);
        assert CandidateOf(name)(i) == candidate;
        if candidate !in used {
          used := used + {candidate};
          return Success(candidate);
        }
        i := i + 1;
      }
      return Failure(Exhausted);
    }
  }

  /**
   * The search returns the smallest number in `[i, hi)` whose name is free,
   * and finds nothing exactly when every name in the range is taken.
   */
  lemma {:induction false} FirstNotInSpec<T>(f: nat -> T, used: set<T>, i: nat, hi: nat)
    ensures FirstNotIn(f, used, i, hi).None? <==> forall j :: i <= j < hi ==> f(j) in used
    ensures FirstNotIn(f, used, i, hi).Some? ==>
      var j := FirstNotIn(f, used, i, hi).value;
      f(j) !in used && forall m :: i <= m < j ==> f(m) in used
    decreases hi - i
  {
    if i < hi && f(i) in used {
      FirstNotInSpec(f, used, i + 1, hi);
    }
  }

  /**
   * De-duplication: a new name comes back unchanged; a taken one gets the
   * suffix `_NN` of the smallest free number in 1..999, its base cut so the
   * result fits in 31 characters; whatever comes back was not yet used;
   * and it raises exactly when the name and all 999 candidates are taken.
   */
  lemma DedupedSpec(name: string, used: set<string>)
    ensures name !in used ==> Deduped(name, used) == Success(name)
    ensures Deduped(name, used).Success? ==> Deduped(name, used).value !in used
    ensures name in used && Deduped(name, used).Success? ==>
      exists i :: 1 <= i < 1000 && Deduped(name, used).value == Candidate(name, i)
        && forall m :: 1 <= m < i ==> Candidate(name, m) in used
    ensures name in used && Deduped(name, used).Success? ==> |Deduped(name, used).value| <= MaxSheetName
    ensures Deduped(name, used).Failure? <==> name in used && forall i :: 1 <= i < 1000 ==> Candidate(name, i) in used
  {
    var f := CandidateOf(name);
    FirstNotInSpec(f, used, 1, 1000);
    assert forall m :: 1 <= m < 1000 ==> f(m) == Candidate(name, m);
  }

  /** The number a candidate ends with: two digits after '_', or three digits. */
  function SuffixNumber(c: string): nat {
    if |c| < 3 then 0
    else if c[|c| - 3] == '_' then ParseDigits(c[|c| - 2..], 10)
    else ParseDigits(c[|c| - 3..], 10)
  }

  /** The suffix number only looks at the last three characters. */
  lemma SuffixNumberOfTail(p: string, s: string)
    requires |s| >= 3
    ensures SuffixNumber(p + s) == SuffixNumber(s)
  {
    var c := p + s;
    assert c[|c| - 3..] == s[|s| - 3..];
    assert c[|c| - 2..] == s[|s| - 2..];
  }

  /** After '_', two or three characters not starting with '_' are read as the number. */
  lemma SuffixNumberAfterUnderscore(z: string)
    requires 2 <= |z| <= 3 && (|z| == 3 ==> z[0] != '_')
    ensures SuffixNumber("_" + z) == ParseDigits(z, 10)
  {
    var s := "_" + z;
    assert s[|s| - |z|..] == z;
    if |z| == 2 {
      assert s[|s| - 3] == '_';
    } else {
      assert s[|s| - 3] == z[0];
      assert s[|s| - 3..] == z;
    }
  }

  /** The suffix number reads back from the suffix. */
  lemma SuffixReadsBack(i: nat)
    requires 1 <= i < 1000
    ensures SuffixNumber(Suffix(i)) == i
  {
    var d := Decimal(i);
    var z := ZeroPad(d, 2);
    DecimalWidth(i);
    assert |z| == 3 ==> z == d && IsDigitChar(z[0], 10);
    SuffixNumberAfterUnderscore(z);
    PaddedReadsBack(i, 2, 10);
  }

  /** The suffix number reads back from every candidate. */
  lemma CandidateReadsBack(base: string, i: nat)
    requires 1 <= i < 1000
    ensures SuffixNumber(Candidate(base, i)) == i
  {
    SuffixNumberOfTail(Prefix(base, MaxSheetName - |Suffix(i)|), Suffix(i));
    SuffixReadsBack(i);
  }

  /** Different suffix numbers give different candidates, whatever the base. */
  lemma CandidatesDistinct(base: string, i: nat, j: nat)
    requires 1 <= i < 1000 && 1 <= j < 1000 && i != j
    ensures Candidate(base, i) != Candidate(base, j)
  {
    CandidateReadsBack(base, i);
    CandidateReadsBack(base, j);
  }

  /** Numbers whose names read back as the numbers give as many different names. */
  lemma {:induction false} ImageCount<T>(f: nat -> T, g: T -> nat, n: nat)
    requires forall a :: 1 <= a <= n ==> g(f(a)) == a
    ensures |set i | 1 <= i <= n :: f(i)| == n
  {
    if n > 0 {
      ImageCount(f, g, n - 1);
      var before := set i | 1 <= i <= n - 1 :: f(i);
      var after := set i | 1 <= i <= n :: f(i);
      assert after == before + {f(n)};
      assert f(n) !in before;
    }
  }

  /** A search over `[1, hi)` with names that read back as their numbers and that finds nothing needs `hi - 1` names in `used`. */
  lemma SearchExhausted<T>(f: nat -> T, g: T -> nat, used: set<T>, hi: nat)
    requires hi >= 1
    requires forall a :: 1 <= a < hi ==> g(f(a)) == a
    requires FirstNotIn(f, used, 1, hi).None?
    ensures |used| >= hi - 1
  {
    FirstNotInSpec(f, used, 1, hi);
    ImageCount(f, g, hi - 1);
    var image := set i | 1 <= i <= hi - 1 :: f(i);
    assert used == image + (used - image);
  }

  /** The candidates 1..999 of one base read back as their numbers. */
  lemma CandidatesReadBack(name: string)
    ensures forall a :: 1 <= a < 1000 ==> SuffixNumber(CandidateOf(name)(a)) == a
  {
    forall a | 1 <= a < 1000
      ensures SuffixNumber(CandidateOf(name)(a)) == a
    {
      CandidateReadsBack(name, a);
    }
  }

  /** Finding no free candidate needs all 999 candidates in use, and they are distinct. */
  lemma CandidatesExhausted(name: string, used: set<string>)
    requires FirstNotIn(CandidateOf(name), used, 1, 1000).None?
    ensures |used| >= 999
  {
    CandidatesReadBack(name);
    SearchExhausted(CandidateOf(name), SuffixNumber, used, 1000);
  }

  /** The de-duplicator raises only once `used` holds at least 999 names. */
  lemma ExhaustedNeedsManyNames(name: string, used: set<string>)
    requires Deduped(name, used).Failure?
    ensures |used| >= 999
  {
    assert FirstNotIn(CandidateOf(name), used, 1, 1000).None?;
    CandidatesExhausted(name, used);
  }

  // ------------------------------------------------------------ reach column

  /** The Components column names tried for an extension's reach, most preferred first. */
  const ReachCandidates: seq<string> :=
    ["reach", "reach_length", "reach_len", "reach_mm", "extension_reach", "extension_length", "len", "length"]

  /** `RuntimeError` naming the columns that were found. */
  datatype ReachError = NoReachColumn(columns: seq<string>)

  /**
   * The column choice of `_detect_components_reach_col` over the column
   * names of `PRAGMA table_info(Components)`: the first candidate that is a
   * column, or the error when none is.
   */
  method DetectReachColumn(columns: seq<string>) returns (r: Result<string, ReachError>)
    ensures r.Success? ==>
      exists i :: 0 <= i < |ReachCandidates| && r.value == ReachCandidates[i] && ReachCandidates[i] in columns
        && forall j :: 0 <= j < i ==> ReachCandidates[j] !in columns
    ensures r.Failure? <==> forall c :: c in ReachCandidates ==> c !in columns
    ensures r.Failure? ==> r.error == NoReachColumn(columns)
  {
    for i := 0 to |ReachCandidates|
      invariant forall j :: 0 <= j < i ==> ReachCandidates[j] !in columns
    {
      if ReachCandidates[i] in columns {
        return Success(ReachCandidates[i]);
      }
    }
    return Failure(NoReachColumn(columns));
  }
}
