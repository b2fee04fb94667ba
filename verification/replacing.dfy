/** The Python idiom `for ch in chars: name = name.replace(ch, "_")`, shared by the sheet-name and file-name sanitisers. */
module CharReplace {
  import opened PyBuiltins

  /** `for ch in chars: name = name.replace(ch, "_")`, after the first `|chars|` rounds. */
  function ReplacedAll(name: string, chars: string): string {
    if chars == [] then name
    else Replace(ReplacedAll(name, chars[..|chars| - 1]), chars[|chars| - 1], "_")
  }

  /** The replacement loop rewrites each character of `chars` to '_' and leaves every other character where it is. */
  lemma {:induction false} ReplacedAllPointwise(s: string, chars: string)
    requires '_' !in chars
    ensures |ReplacedAll(s, chars)| == |s|
    ensures forall i :: 0 <= i < |s| ==> ReplacedAll(s, chars)[i] == if s[i] in chars then '_' else s[i]
  {
    if chars != [] {
      var init := chars[..|chars| - 1];
      ReplacedAllPointwise(s, init);
      forall i | 0 <= i < |s|
        ensures ReplacedAll(s, chars)[i] == if s[i] in chars then '_' else s[i]
      {
        assert s[i] in chars <==> s[i] in init || s[i] == chars[|chars| - 1] by {
          assert chars == init + [chars[|chars| - 1]];
        }
      }
    }
  }

  /** No character to replace: the replacement loop leaves the name alone. */
  lemma ReplacedAllNone(s: string, chars: string)
    requires '_' !in chars && forall x :: x in s ==> x !in chars
    ensures ReplacedAll(s, chars) == s
  {
    ReplacedAllPointwise(s, chars);
  }

  /** After the replacement loop none of the replaced characters is left. */
  lemma ReplacedClean(s: string, chars: string)
    requires '_' !in chars
    ensures forall c :: c in ReplacedAll(s, chars) ==> c !in chars
  {
    var r := ReplacedAll(s, chars);
    ReplacedAllPointwise(s, chars);
    forall c | c in r
      ensures c !in chars
    {
      var i :| 0 <= i < |r| && r[i] == c;
    }
  }
}
