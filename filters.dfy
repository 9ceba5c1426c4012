/**
 * `strip_line_feed` (core/filters.py), the template filter registered as
 * `normalize`: tabs, line feeds and form feeds become spaces, carriage
 * returns are deleted, and the result is trimmed.
 */
module Filters {
  import opened Text

  const FormFeed: char := 12 as char

  /** The `translate` table: `None` deletes the character. */
  function RemapChar(c: char): Option<char> {
    if c == '\r' then None
    else if c == '\t' || c == '\n' || c == FormFeed then Some(' ')
    else Some(c)
  }

  predicate Remapped(c: char) { c == '\r' || c == '\t' || c == '\n' || c == FormFeed }

  /** `s.translate(remap)`. */
  function Remap(s: string): (r: string)
    ensures |r| <= |s|
    ensures forall k :: 0 <= k < |r| ==> !Remapped(r[k])
  {
    if s == [] then []
    else (match RemapChar(s[0]) case None => [] case Some(c) => [c]) + Remap(s[1..])
  }

  /** On one character: CR is deleted, tab, LF and FF become a space, anything else stays. */
  lemma RemapOne(c: char)
    ensures Remap([c]) == if c == '\r' then [] else if Remapped(c) then " " else [c]
  {
    assert [c][1..] == [];
  }

  lemma {:induction false} RemapAppend(a: string, b: string)
    ensures Remap(a + b) == Remap(a) + Remap(b)
  {
    if a == [] {
      assert a + b == b;
    } else {
      assert (a + b)[1..] == a[1..] + b;
      RemapAppend(a[1..], b);
    }
  }

  /** Text without the four remapped characters passes through `translate` unchanged. */
  lemma {:induction false} RemapUnchanged(s: string)
    requires forall k :: 0 <= k < |s| ==> !Remapped(s[k])
    ensures Remap(s) == s
  {
    if s != [] {
      RemapUnchanged(s[1..]);
      assert s == [s[0]] + s[1..];
    }
  }

  /** Carriage returns disappear, the other three become single spaces, everything else is kept in order. */
  lemma {:induction false} RemapCounts(s: string)
    ensures |Remap(s)| == |s| - Count(s, '\r')
  {
    if s != [] {
      RemapCounts(s[1..]);
    }
  }

  /**
   * `strip_line_feed`: a falsy argument (`None` or the empty string) is
   * returned as it is; otherwise the remapped text, trimmed.
   */
  function StripLineFeed(s: Option<string>): (r: Option<string>)
    ensures s.None? ==> r.None?
    ensures s == Some("") ==> r == Some("")
    ensures s.Some? ==> r.Some?
  {
    match s
    case None => None
    case Some(t) => if t == "" then s else Some(Strip(Remap(t)))
  }

  /**
   * The result has none of the four remapped characters, and neither starts
   * nor ends with whitespace; it is a slice of the remapped text with only
   * whitespace before and after it.
   */
  lemma StripLineFeedShape(t: string)
    ensures var r := StripLineFeed(Some(t)).value;
            && (forall k :: 0 <= k < |r| ==> !Remapped(r[k]))
            && (r != [] ==> !IsSpace(r[0]) && !IsSpace(r[|r| - 1]))
            && TrimmedFrom(r, Remap(t))
  {
    var m := Remap(t);
    if t == "" {
      assert TrimmedFrom(StripLineFeed(Some(t)).value, m) by {
        assert StripLineFeed(Some(t)).value == m[0..0];
      }
    } else {
      assert StripLineFeed(Some(t)).value == Strip(m);
      StripKeepsClean(m);
      StripTrimmed(m);
    }
  }

  /** `r` is a slice of `m` with nothing but whitespace before and after it. */
  predicate TrimmedFrom(r: string, m: string) {
    exists i, j :: && 0 <= i <= j <= |m| && r == m[i..j]
                   && (forall k :: 0 <= k < i ==> IsSpace(m[k]))
                   && (forall k :: j <= k < |m| ==> IsSpace(m[k]))
  }

  lemma StripTrimmed(m: string)
    ensures TrimmedFrom(Strip(m), m)
  {
    var r := Strip(m);
    var i, j := LeadCount(m), LeadCount(m) + |r|;
    assert && 0 <= i <= j <= |m| && r == m[i..j]
           && (forall k :: 0 <= k < i ==> IsSpace(m[k]))
           && (forall k :: j <= k < |m| ==> IsSpace(m[k]));
  }

  lemma StripKeepsClean(m: string)
    requires forall k :: 0 <= k < |m| ==> !Remapped(m[k])
    ensures forall k :: 0 <= k < |Strip(m)| ==> !Remapped(Strip(m)[k])
  {
    var r := Strip(m);
    forall k | 0 <= k < |r| ensures !Remapped(r[k]) {
      assert r[k] == m[LeadCount(m) + k];
    }
  }

  /** Applying the filter twice gives the same as applying it once. */
  lemma StripLineFeedIdempotent(s: Option<string>)
    ensures StripLineFeed(StripLineFeed(s)) == StripLineFeed(s)
  {
    if s.Some? && s.value != "" {
      var r := Strip(Remap(s.value));
      StripLineFeedShape(s.value);
      if r != "" {
        RemapUnchanged(r);
        StripOfStripped(r);
      }
    }
  }
}
