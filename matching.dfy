/**
 * The text tests of the redaction engine: the whole-word search the engine
 * runs with the pattern `\b{matricula}\b` (on page text and on block text),
 * the plain substring test `info in block_text`, the case-insensitive search
 * for "home", and Python's `"\n".join` of the page texts.
 */
module Matching {

  datatype Option<T> = None | Some(value: T)

  /**
   * A character that Python's `\w` accepts: ASCII letters and digits, the
   * underscore, and the Latin-1 letters and numeric signs (the accented
   * capitals of labels such as "RELATÓRIO" among them).
   */
  predicate IsWordChar(c: char) {
    || ('a' <= c <= 'z') || ('A' <= c <= 'Z') || ('0' <= c <= '9') || c == '_'
    || c == '\U{AA}' || c == '\U{B2}' || c == '\U{B3}' || c == '\U{B5}'
    || c == '\U{B9}' || c == '\U{BA}' || ('\U{BC}' <= c <= '\U{BE}')
    || ('\U{C0}' <= c <= '\U{FF}' && c != '\U{D7}' && c != '\U{F7}')
  }

  /** Every character of `w` is a word character. */
  predicate IsWord(w: string) {
    forall k :: 0 <= k < |w| ==> IsWordChar(w[k])
  }

  /** Python's `\b` at position `i`: exactly one of the two neighbouring characters is a word character. */
  predicate AtBoundary(s: string, i: nat)
    requires i <= |s|
  {
    (i > 0 && IsWordChar(s[i - 1])) != (i < |s| && IsWordChar(s[i]))
  }

  /** `w` occurs literally in `s` starting at position `i`. */
  predicate OccursAt(s: string, w: string, i: nat) {
    i + |w| <= |s| && s[i..i + |w|] == w
  }

  /** The pattern `\b` + `w` + `\b` matches `s` at position `i`. */
  predicate WholeWordAt(s: string, w: string, i: nat) {
    OccursAt(s, w, i) && AtBoundary(s, i) && AtBoundary(s, i + |w|)
  }

  /** Some position of `s` matches `\b` + `w` + `\b`. */
  predicate ContainsWholeWord(s: string, w: string) {
    exists i: nat | i <= |s| :: WholeWordAt(s, w, i)
  }

  /** The leftmost whole-word match of `w` in `s` at or after `from`, as `re.search` scans. */
  function SearchFrom(s: string, w: string, from: nat): (m: Option<nat>)
    ensures m.Some? ==> from <= m.value && WholeWordAt(s, w, m.value)
    ensures m.Some? ==> forall j: nat :: from <= j < m.value ==> !WholeWordAt(s, w, j)
    ensures m.None? ==> forall j: nat :: from <= j ==> !WholeWordAt(s, w, j)
    decreases |s| - from
  {
    if from + |w| > |s| then None
    else if WholeWordAt(s, w, from) then Some(from)
    else SearchFrom(s, w, from + 1)
  }

  /** `re.search(rf'\b{w}\b', s)`: the position of the leftmost match, if there is one. */
  function Search(s: string, w: string): (m: Option<nat>)
    ensures m.Some? <==> ContainsWholeWord(s, w)
    ensures m.Some? ==> WholeWordAt(s, w, m.value) &&
                        forall j: nat :: j < m.value ==> !WholeWordAt(s, w, j)
  {
    SearchFrom(s, w, 0)
  }

  /**
   * For an identifier made of word characters, `\b` + `w` + `\b` is the
   * whole-token test: an occurrence matches exactly when it is neither
   * preceded nor followed by a word character.
   */
  lemma WholeWordIsDelimitedToken(s: string, w: string, i: nat)
    requires |w| > 0 && IsWord(w) && OccursAt(s, w, i)
    ensures WholeWordAt(s, w, i) <==>
      (i == 0 || !IsWordChar(s[i - 1])) && (i + |w| == |s| || !IsWordChar(s[i + |w|]))
  {
    assert s[i] == s[i..i + |w|][0] == w[0];
    assert s[i + |w| - 1] == s[i..i + |w|][|w| - 1] == w[|w| - 1];
  }

  /** An occurrence glued to a word character on either side is not a match. */
  lemma PartOfLongerTokenIsNoMatch(s: string, w: string, i: nat)
    requires |w| > 0 && IsWord(w) && OccursAt(s, w, i)
    requires (i > 0 && IsWordChar(s[i - 1])) || (i + |w| < |s| && IsWordChar(s[i + |w|]))
    ensures !WholeWordAt(s, w, i)
  {
    WholeWordIsDelimitedToken(s, w, i);
  }

  /** Python's `sub in s`: `sub` occurs somewhere in `s` (case-sensitive). */
  predicate Contains(s: string, sub: string) {
    exists i: nat | i <= |s| :: OccursAt(s, sub, i)
  }

  /** Lower-casing as `re.IGNORECASE` applies it to ASCII letters. */
  function Lower(c: char): char {
    if 'A' <= c <= 'Z' then (c as int + 32) as char else c
  }

  /** The lower-case pattern `pat` matches `s` at `i`, ignoring case. */
  predicate OccursIgnoreCaseAt(s: string, pat: string, i: nat) {
    i + |pat| <= |s| && forall k :: 0 <= k < |pat| ==> Lower(s[i + k]) == pat[k]
  }

  /** `re.search(pat, s, re.IGNORECASE)` finds a match. */
  predicate ContainsIgnoreCase(s: string, pat: string) {
    exists i: nat | i <= |s| :: OccursIgnoreCaseAt(s, pat, i)
  }

  /** Python's `"\n".join(texts)`. */
  function JoinLines(texts: seq<string>): (r: string)
    ensures |texts| == 1 ==> r == texts[0]
  {
    if |texts| == 0 then ""
    else if |texts| == 1 then texts[0]
    else texts[0] + "\n" + JoinLines(texts[1..])
  }

  /** Every joined text occurs, unchanged, in the result of the join. */
  lemma {:induction false} JoinLinesHoldsEachText(texts: seq<string>, t: nat)
    requires t < |texts|
    ensures Contains(JoinLines(texts), texts[t])
  {
    var r := JoinLines(texts);
    if |texts| == 1 {
      assert r[0..|texts[0]|] == texts[0];
      assert OccursAt(r, texts[0], 0);
    } else {
      var rest := texts[1..];
      var tail := JoinLines(rest);
      assert r == texts[0] + "\n" + tail;
      if t == 0 {
        assert r[0..|texts[0]|] == texts[0];
        assert OccursAt(r, texts[0], 0);
      } else {
        JoinLinesHoldsEachText(rest, t - 1);
        var i: nat :| i <= |tail| && OccursAt(tail, rest[t - 1], i);
        var j: nat := i + |texts[0]| + 1;
        assert r[j..j + |texts[t]|] == tail[i..i + |texts[t]|];
        assert OccursAt(r, texts[t], j);
      }
    }
  }

  /** A pattern without line breaks matches only text without line breaks. */
  lemma BreakOutsideMatch(s: string, pat: string, i: nat, p: nat)
    requires OccursIgnoreCaseAt(s, pat, i) && i <= p < i + |pat|
    requires forall k :: 0 <= k < |pat| ==> pat[k] != '\n'
    ensures s[p] != '\n'
  {
    assert Lower(s[i + (p - i)]) == pat[p - i];
  }

  /**
   * A line break between two texts can take part in no match of a pattern
   * without line breaks: every match lies inside one of the two texts.
   */
  lemma ContainsIgnoreCaseAcrossBreak(a: string, b: string, pat: string)
    requires forall k :: 0 <= k < |pat| ==> pat[k] != '\n'
    ensures ContainsIgnoreCase(a + "\n" + b, pat) <==>
            ContainsIgnoreCase(a, pat) || ContainsIgnoreCase(b, pat)
  {
    var s := a + "\n" + b;
    if ContainsIgnoreCase(s, pat) {
      var i: nat :| i <= |s| && OccursIgnoreCaseAt(s, pat, i);
      if i + |pat| <= |a| {
        assert OccursIgnoreCaseAt(a, pat, i) by {
          forall k | 0 <= k < |pat| ensures Lower(a[i + k]) == pat[k] {
            assert s[i + k] == a[i + k];
          }
        }
      } else if i >= |a| + 1 {
        var j: nat := i - |a| - 1;
        assert OccursIgnoreCaseAt(b, pat, j) by {
          forall k | 0 <= k < |pat| ensures Lower(b[j + k]) == pat[k] {
            assert s[i + k] == b[j + k];
          }
        }
      } else {
        BreakOutsideMatch(s, pat, i, |a|);
        assert false;
      }
    }
    if ContainsIgnoreCase(a, pat) {
      var i: nat :| i <= |a| && OccursIgnoreCaseAt(a, pat, i);
      assert OccursIgnoreCaseAt(s, pat, i) by {
        forall k | 0 <= k < |pat| ensures Lower(s[i + k]) == pat[k] {
          assert s[i + k] == a[i + k];
        }
      }
    }
    if ContainsIgnoreCase(b, pat) {
      var j: nat :| j <= |b| && OccursIgnoreCaseAt(b, pat, j);
      var i: nat := j + |a| + 1;
      assert OccursIgnoreCaseAt(s, pat, i) by {
        forall k | 0 <= k < |pat| ensures Lower(s[i + k]) == pat[k] {
          assert s[i + k] == b[j + k];
        }
      }
    }
  }

  /**
   * Joining texts with line breaks neither creates nor hides a match of a
   * pattern without line breaks: the joined text matches exactly when one of
   * the texts does.
   */
  lemma {:induction false} JoinLinesContainsIgnoreCase(texts: seq<string>, pat: string)
    requires |pat| > 0
    requires forall k :: 0 <= k < |pat| ==> pat[k] != '\n'
    ensures ContainsIgnoreCase(JoinLines(texts), pat) <==>
            exists t :: 0 <= t < |texts| && ContainsIgnoreCase(texts[t], pat)
  {
    if |texts| == 0 {
      assert JoinLines(texts) == "";
    } else if |texts| > 1 {
      var rest := texts[1..];
      JoinLinesContainsIgnoreCase(rest, pat);
      ContainsIgnoreCaseAcrossBreak(texts[0], JoinLines(rest), pat);
      if exists t :: 0 <= t < |texts| && ContainsIgnoreCase(texts[t], pat) {
        var t :| 0 <= t < |texts| && ContainsIgnoreCase(texts[t], pat);
        if t > 0 {
          assert rest[t - 1] == texts[t];
        }
      }
      if exists t :: 0 <= t < |rest| && ContainsIgnoreCase(rest[t], pat) {
        var t :| 0 <= t < |rest| && ContainsIgnoreCase(rest[t], pat);
        assert texts[t + 1] == rest[t];
      }
    }
  }
}
