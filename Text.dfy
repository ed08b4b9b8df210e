/** The string matching behind item search: case-insensitive substring
    containment. Case folding is ASCII only. */
module Text {
  /** toLowerCase on one character. */
  function Lower(c: char): (d: char)
    ensures 'A' <= c <= 'Z' ==> d as int == c as int + 32
    ensures !('A' <= c <= 'Z') ==> d == c
    ensures !('A' <= d <= 'Z')
  {
    if 'A' <= c <= 'Z' then (c as int + 32) as char else c
  }

  /** toLowerCase on a string: the same length, each character folded. */
  function LowerString(s: string): (r: string)
    ensures |r| == |s|
    ensures forall i :: 0 <= i < |s| ==> r[i] == Lower(s[i])
  {
    if s == [] then [] else [Lower(s[0])] + LowerString(s[1..])
  }

  /** `needle` occurs in `hay` starting at position `i`. */
  predicate OccursAt(hay: string, needle: string, i: int)
  {
    0 <= i && i + |needle| <= |hay| && hay[i..i + |needle|] == needle
  }

  /** String.contains (and SQL `LIKE '%needle%'` read literally): some
      position of `hay` starts an occurrence of `needle`. */
  function Contains(hay: string, needle: string): (r: bool)
    ensures r <==> exists i :: OccursAt(hay, needle, i)
  {
    if |needle| <= |hay| && hay[..|needle|] == needle then
      assert OccursAt(hay, needle, 0);
      true
    else if |needle| > |hay| then
      false
    else
      var rest := Contains(hay[1..], needle);
      assert rest ==> exists i :: OccursAt(hay, needle, i) by {
        if rest {
          var i :| OccursAt(hay[1..], needle, i);
          assert hay[1..][i..i + |needle|] == hay[i + 1..i + 1 + |needle|];
          assert OccursAt(hay, needle, i + 1);
        }
      }
      assert (exists i :: OccursAt(hay, needle, i)) ==> rest by {
        if exists i :: OccursAt(hay, needle, i) {
          var i :| OccursAt(hay, needle, i);
          assert i != 0;
          assert hay[1..][i - 1..i - 1 + |needle|] == hay[i..i + |needle|];
          assert OccursAt(hay[1..], needle, i - 1);
        }
      }
      rest
  }

  /** `hay.toLowerCase().contains(needle.toLowerCase())`, which is also what
      `UPPER(hay) LIKE UPPER('%' || needle || '%')` decides on ASCII text. */
  predicate ContainsIgnoreCase(hay: string, needle: string)
  {
    Contains(LowerString(hay), LowerString(needle))
  }

  /** The empty text occurs in every string, so an unguarded search with ""
      would keep every available item. */
  lemma EmptyTextMatchesAll(hay: string)
    ensures ContainsIgnoreCase(hay, "")
  {
    assert OccursAt(LowerString(hay), LowerString(""), 0);
  }

  /** Folding twice folds once. */
  lemma LowerStringIdempotent(s: string)
    ensures LowerString(LowerString(s)) == LowerString(s)
  {
    var once := LowerString(s);
    assert forall i :: 0 <= i < |s| ==> LowerString(once)[i] == once[i];
  }

  /** Matching ignores case on both sides: folding the text or the searched
      string beforehand changes nothing. */
  lemma CaseIrrelevant(hay: string, needle: string)
    ensures ContainsIgnoreCase(hay, LowerString(needle)) == ContainsIgnoreCase(hay, needle)
    ensures ContainsIgnoreCase(LowerString(hay), needle) == ContainsIgnoreCase(hay, needle)
  {
    LowerStringIdempotent(hay);
    LowerStringIdempotent(needle);
  }

  /** An exact occurrence is also a case-insensitive one. */
  lemma ExactOccurrenceMatches(hay: string, needle: string, i: int)
    requires OccursAt(hay, needle, i)
    ensures ContainsIgnoreCase(hay, needle)
  {
    var h := LowerString(hay);
    var n := LowerString(needle);
    assert h[i..i + |n|] == n by {
      forall k | 0 <= k < |n| ensures h[i..i + |n|][k] == n[k] {
        assert hay[i..i + |needle|][k] == needle[k];
      }
    }
    assert OccursAt(h, n, i);
  }
}
