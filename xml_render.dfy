/**
 * Two pieces of core/xml_render.py: `XmlRender.escape`, which replaces the
 * five predefined entities of XML 1.0 (section 4.6, "Predefined Entities")
 * in the string values of a template-parameter dictionary, in place; and
 * the namespace-stripping rule of `sanitize_response`, which rewrites each
 * element tag `{uri}local` to `local`.
 */
module XmlRender {
  import opened Text

  // ---------------------------------------------------------------------
  // Escaping one string
  // ---------------------------------------------------------------------

  /** `s.replace(c, rep)` for a one-character pattern: what is left is the other characters and copies of `rep`. */
  function Replace(s: string, c: char, rep: string): (r: string)
    ensures forall x :: x in r ==> (x in s && x != c) || x in rep
  {
    if s == [] then [] else (if s[0] == c then rep else [s[0]]) + Replace(s[1..], c, rep)
  }

  lemma {:induction false} ReplaceAppend(a: string, b: string, c: char, rep: string)
    ensures Replace(a + b, c, rep) == Replace(a, c, rep) + Replace(b, c, rep)
  {
    if a == [] {
      assert a + b == b;
    } else {
      assert (a + b)[1..] == a[1..] + b;
      ReplaceAppend(a[1..], b, c, rep);
    }
  }

  lemma {:induction false} ReplaceAbsent(s: string, c: char, rep: string)
    requires c !in s
    ensures Replace(s, c, rep) == s
  {
    if s != [] {
      assert c !in s[1..];
      ReplaceAbsent(s[1..], c, rep);
      assert s == [s[0]] + s[1..];
    }
  }

  lemma ReplaceSingle(c: char, x: char, rep: string)
    ensures Replace([c], x, rep) == if c == x then rep else [c]
  {
    assert [c][1..] == [];
  }

  /** The five chained `replace` calls of `escape`, `&` first. */
  function EscapeText(s: string): (r: string)
    ensures '<' !in r && '>' !in r
  {
    Replace(Replace(Replace(Replace(Replace(s, '&', "&amp;"), '<', "&lt;"), '>', "&gt;"), '"', "&quot;"), '\'', "&apos;")
  }

  /** The entity reference for one of the five special characters, the character itself otherwise. */
  function EscapeChar(c: char): (r: string)
    ensures |r| >= 1
  {
    match c
    case '&' => "&amp;"
    case '<' => "&lt;"
    case '>' => "&gt;"
    case '"' => "&quot;"
    case '\'' => "&apos;"
    case _ => [c]
  }

  /** Each character escaped on its own, the pieces concatenated. */
  function EscapeEach(s: string): string {
    if s == [] then [] else EscapeChar(s[0]) + EscapeEach(s[1..])
  }

  lemma EscapeTextAppend(a: string, b: string)
    ensures EscapeText(a + b) == EscapeText(a) + EscapeText(b)
  {
    ReplaceAppend(a, b, '&', "&amp;");
    var a1, b1 := Replace(a, '&', "&amp;"), Replace(b, '&', "&amp;");
    ReplaceAppend(a1, b1, '<', "&lt;");
    var a2, b2 := Replace(a1, '<', "&lt;"), Replace(b1, '<', "&lt;");
    ReplaceAppend(a2, b2, '>', "&gt;");
    var a3, b3 := Replace(a2, '>', "&gt;"), Replace(b2, '>', "&gt;");
    ReplaceAppend(a3, b3, '"', "&quot;");
    var a4, b4 := Replace(a3, '"', "&quot;"), Replace(b3, '"', "&quot;");
    ReplaceAppend(a4, b4, '\'', "&apos;");
  }

  /** The chain of replacements after the first one, from `<` on. */
  function AfterAmp(t: string): string {
    Replace(Replace(Replace(Replace(t, '<', "&lt;"), '>', "&gt;"), '"', "&quot;"), '\'', "&apos;")
  }

  lemma AfterAmpPlain(t: string)
    requires forall k :: 0 <= k < |t| ==> !Markup(t[k])
    ensures AfterAmp(t) == t
  {
    ReplaceAbsent(t, '<', "&lt;");
    ReplaceAbsent(t, '>', "&gt;");
    ReplaceAbsent(t, '"', "&quot;");
    ReplaceAbsent(t, '\'', "&apos;");
  }

  lemma AfterAmpMarkup(c: char)
    requires Markup(c)
    ensures AfterAmp([c]) == EscapeChar(c)
  {
    var e := EscapeChar(c);
    assert forall k :: 0 <= k < |e| ==> !Markup(e[k]);
    if c == '<' {
      ReplaceSingle(c, '<', "&lt;");
      AfterLt(e);
    } else if c == '>' {
      ReplaceAbsent([c], '<', "&lt;");
      ReplaceSingle(c, '>', "&gt;");
      ReplaceAbsent(e, '"', "&quot;");
      ReplaceAbsent(e, '\'', "&apos;");
    } else if c == '"' {
      ReplaceAbsent([c], '<', "&lt;");
      ReplaceAbsent([c], '>', "&gt;");
      ReplaceSingle(c, '"', "&quot;");
      ReplaceAbsent(e, '\'', "&apos;");
    } else {
      ReplaceAbsent([c], '<', "&lt;");
      ReplaceAbsent([c], '>', "&gt;");
      ReplaceAbsent([c], '"', "&quot;");
      ReplaceSingle(c, '\'', "&apos;");
    }
  }

  lemma AfterLt(t: string)
    requires forall k :: 0 <= k < |t| ==> !Markup(t[k])
    ensures Replace(Replace(Replace(t, '>', "&gt;"), '"', "&quot;"), '\'', "&apos;") == t
  {
    ReplaceAbsent(t, '>', "&gt;");
    ReplaceAbsent(t, '"', "&quot;");
    ReplaceAbsent(t, '\'', "&apos;");
  }

  /** The entity that replaces `&` holds none of the other four characters. */
  lemma AmpEntityPlain()
    ensures AfterAmp("&amp;") == "&amp;"
  {
    var e := "&amp;";
    assert forall k :: 0 <= k < |e| ==> e[k] in "&amp;";
    AfterAmpPlain(e);
  }

  /** Chaining the replacements on a one-character string gives its entity reference. */
  lemma EscapeTextChar(c: char)
    ensures EscapeText([c]) == EscapeChar(c)
  {
    ReplaceSingle(c, '&', "&amp;");
    assert EscapeText([c]) == AfterAmp(Replace([c], '&', "&amp;"));
    if c == '&' {
      AmpEntityPlain();
    } else if Markup(c) {
      AfterAmpMarkup(c);
    } else {
      AfterAmpPlain([c]);
    }
  }

  /**
   * Because `&` is replaced first, the chained replacements escape every
   * character on its own: no entity they introduce is escaped again.
   */
  lemma {:induction false} EscapeTextIsPerCharacter(s: string)
    ensures EscapeText(s) == EscapeEach(s)
  {
    if s != [] {
      assert s == [s[0]] + s[1..];
      EscapeTextAppend([s[0]], s[1..]);
      EscapeTextChar(s[0]);
      EscapeTextIsPerCharacter(s[1..]);
    }
  }

  predicate Markup(c: char) { c in "<>\"'" }

  predicate Special(c: char) { c == '&' || Markup(c) }

  lemma {:induction false} EscapeEachNoMarkup(s: string)
    ensures forall k :: 0 <= k < |EscapeEach(s)| ==> !Markup(EscapeEach(s)[k])
  {
    if s != [] {
      EscapeEachNoMarkup(s[1..]);
      var head := EscapeChar(s[0]);
      assert forall k :: 0 <= k < |head| ==> !Markup(head[k]);
    }
  }

  /** An escaped string holds no `<`, `>`, `"` or `'`. */
  lemma EscapedHasNoMarkup(s: string)
    ensures forall k :: 0 <= k < |EscapeText(s)| ==> !Markup(EscapeText(s)[k])
  {
    EscapeTextIsPerCharacter(s);
    EscapeEachNoMarkup(s);
  }

  /** A string with none of the five special characters is left as it is. */
  lemma {:induction false} PlainTextUnchanged(s: string)
    requires forall k :: 0 <= k < |s| ==> !Special(s[k])
    ensures EscapeText(s) == s
  {
    EscapeTextIsPerCharacter(s);
    PlainEach(s);
  }

  lemma {:induction false} PlainEach(s: string)
    requires forall k :: 0 <= k < |s| ==> !Special(s[k])
    ensures EscapeEach(s) == s
  {
    if s != [] {
      PlainEach(s[1..]);
      assert s == [s[0]] + s[1..];
    }
  }

  /** Reads the entity references back into characters. */
  function Unescape(t: string): string
    decreases |t|
  {
    if t == [] then []
    else if "&amp;" <= t then "&" + Unescape(t[5..])
    else if "&lt;" <= t then "<" + Unescape(t[4..])
    else if "&gt;" <= t then ">" + Unescape(t[4..])
    else if "&quot;" <= t then "\"" + Unescape(t[6..])
    else if "&apos;" <= t then "'" + Unescape(t[6..])
    else [t[0]] + Unescape(t[1..])
  }

  lemma UnescapeAmp(rest: string)
    ensures Unescape("&amp;" + rest) == "&" + Unescape(rest)
  {
    var t := "&amp;" + rest;
    assert "&amp;" <= t;
    assert t[5..] == rest;
  }

  lemma UnescapeLt(rest: string)
    ensures Unescape("&lt;" + rest) == "<" + Unescape(rest)
  {
    var t := "&lt;" + rest;
    assert !("&amp;" <= t) by { assert t[1] == 'l'; }
    assert "&lt;" <= t;
    assert t[4..] == rest;
  }

  lemma UnescapeGt(rest: string)
    ensures Unescape("&gt;" + rest) == ">" + Unescape(rest)
  {
    var t := "&gt;" + rest;
    assert !("&amp;" <= t) && !("&lt;" <= t) by { assert t[1] == 'g'; }
    assert "&gt;" <= t;
    assert t[4..] == rest;
  }

  lemma UnescapeQuot(rest: string)
    ensures Unescape("&quot;" + rest) == "\"" + Unescape(rest)
  {
    var t := "&quot;" + rest;
    assert !("&amp;" <= t) && !("&lt;" <= t) && !("&gt;" <= t) by { assert t[1] == 'q'; }
    assert "&quot;" <= t;
    assert t[6..] == rest;
  }

  lemma UnescapeApos(rest: string)
    ensures Unescape("&apos;" + rest) == "'" + Unescape(rest)
  {
    var t := "&apos;" + rest;
    assert !("&amp;" <= t) by { assert t[2] == 'p'; }
    assert !("&lt;" <= t) && !("&gt;" <= t) && !("&quot;" <= t) by { assert t[1] == 'a'; }
    assert "&apos;" <= t;
    assert t[6..] == rest;
  }

  lemma UnescapePlain(c: char, rest: string)
    requires !Special(c)
    ensures Unescape([c] + rest) == [c] + Unescape(rest)
  {
    var t := [c] + rest;
    assert t[0] == c;
    assert t[1..] == rest;
  }

  /** Reading back the escape of one character, followed by anything, gives that character first. */
  lemma UnescapeStep(c: char, rest: string)
    ensures Unescape(EscapeChar(c) + rest) == [c] + Unescape(rest)
  {
    match c
    case '&' => UnescapeAmp(rest);
    case '<' => UnescapeLt(rest);
    case '>' => UnescapeGt(rest);
    case '"' => UnescapeQuot(rest);
    case '\'' => UnescapeApos(rest);
    case _ => UnescapePlain(c, rest);
  }

  /** Escaping loses nothing: reading the entities back gives the original text. */
  lemma {:induction false} UnescapeEscape(s: string)
    ensures Unescape(EscapeText(s)) == s
  {
    EscapeTextIsPerCharacter(s);
    UnescapeEach(s);
  }

  lemma {:induction false} UnescapeEach(s: string)
    ensures Unescape(EscapeEach(s)) == s
  {
    if s != [] {
      UnescapeStep(s[0], EscapeEach(s[1..]));
      UnescapeEach(s[1..]);
      assert s == [s[0]] + s[1..];
    }
  }

  lemma {:induction false} EscapeEachGrows(s: string)
    ensures |EscapeEach(s)| >= |s|
    ensures (exists k :: 0 <= k < |s| && Special(s[k])) ==> |EscapeEach(s)| > |s| && '&' in EscapeEach(s)
  {
    if s != [] {
      EscapeEachGrows(s[1..]);
      if exists k :: 0 <= k < |s| && Special(s[k]) {
        var k :| 0 <= k < |s| && Special(s[k]);
        if k > 0 {
          assert Special(s[1..][k - 1]);
        } else {
          assert EscapeChar(s[0])[0] == '&';
        }
      }
    }
  }

  /**
   * Escaping is not idempotent: a string with a special character changes
   * again when escaped a second time.
   */
  lemma EscapeTwiceDiffers(s: string)
    requires exists k :: 0 <= k < |s| && Special(s[k])
    ensures EscapeText(EscapeText(s)) != EscapeText(s)
  {
    var t := EscapeText(s);
    EscapeTextIsPerCharacter(s);
    EscapeEachGrows(s);
    EscapeTextIsPerCharacter(t);
    var k :| 0 <= k < |t| && t[k] == '&';
    assert Special(t[k]);
    EscapeEachGrows(t);
  }

  // ---------------------------------------------------------------------
  // escape: the parameter dictionary, updated in place
  // ---------------------------------------------------------------------

  /** A template parameter: only strings are escaped, and nested containers are not visited. */
  datatype Param =
    | Text(s: string)
    | Number(n: int)
    | Items(items: seq<Param>)
    | Record(fields: map<string, Param>)
    | Null

  function EscapeParam(p: Param): (q: Param)
    ensures q.Text? <==> p.Text?
    ensures q.Text? ==> Unescape(q.s) == p.s
    ensures !p.Text? ==> q == p
  {
    if p.Text? then
      UnescapeEscape(p.s);
      Text(EscapeText(p.s))
    else p
  }

  /** The keyword arguments of a template rendering: a mutable dictionary. */
  class Params {
    var entries: map<string, Param>

    constructor (entries0: map<string, Param>)
      ensures entries == entries0
    {
      entries := entries0;
    }
  }

  /**
   * `escape`: every string value of `d` is replaced by its escaped form,
   * one key at a time; other values and the key set stay; the same
   * dictionary is returned.
   */
  method Escape(d: Params) returns (r: Params)
    modifies d
    ensures r == d
    ensures d.entries.Keys == old(d.entries.Keys)
    ensures forall k :: k in d.entries ==> d.entries[k] == EscapeParam(old(d.entries[k]))
  {
    var todo := d.entries.Keys;
    ghost var start := d.entries;
    while todo != {}
      invariant todo <= d.entries.Keys
      invariant d.entries.Keys == start.Keys
      invariant forall k :: k in d.entries ==> d.entries[k] == if k in todo then start[k] else EscapeParam(start[k])
      decreases todo
    {
      var key :| key in todo;
      var v := d.entries[key];
      if v.Text? {
        d.entries := d.entries[key := Text(EscapeText(v.s))];
      }
      todo := todo - {key};
    }
    r := d;
  }

  // ---------------------------------------------------------------------
  // sanitize_response: local names of tags
  // ---------------------------------------------------------------------

  /** An element tag: a string, or something without `find` (comments, processing instructions). */
  datatype Tag = Name(s: string) | NotAString

  /** The text after the first `}` of a string tag; other tags as they are. */
  function LocalName(t: Tag): (r: Tag)
    ensures r.Name? <==> t.Name?
    ensures t.Name? ==> Suffix(r.s, t.s)
  {
    match t
    case NotAString => t
    case Name(s) =>
      var i := Find(s, '}');
      if i >= 0 then
        SuffixAt(s, i + 1);
        Name(s[i + 1..])
      else
        SuffixAt(s, 0);
        assert s[0..] == s;
        t
  }

  /** `a` is a final segment of `b`. */
  predicate Suffix(a: string, b: string) {
    exists k :: 0 <= k <= |b| && a == b[k..]
  }

  /** What follows position `k` of `b` is a final segment of `b`. */
  lemma SuffixAt(b: string, k: nat)
    requires k <= |b|
    ensures Suffix(b[k..], b)
  {
  }

  /**
   * Only a string tag holding `}` changes, and it loses exactly the text up
   * to and including its first `}`.
   */
  lemma LocalNameCut(t: Tag)
    ensures t.NotAString? ==> LocalName(t) == t
    ensures t.Name? && '}' !in t.s ==> LocalName(t) == t
    ensures t.Name? && '}' in t.s ==>
              exists i :: 0 <= i < |t.s| && t.s[i] == '}' && '}' !in t.s[..i] && LocalName(t) == Name(t.s[i + 1..])
  {
    if t.Name? && '}' in t.s {
      var i := Find(t.s, '}');
      assert t.s[i] == '}' && '}' !in t.s[..i];
    }
  }

  /** A tag in `{uri}local` notation loses its namespace part, and only that. */
  lemma LocalNameOfQualified(uri: string, local: string)
    requires '}' !in uri
    ensures LocalName(Name("{" + uri + "}" + local)) == Name(local)
  {
    var s := "{" + uri + "}" + local;
    var i := |uri| + 1;
    assert s[i] == '}';
    assert s[..i] == "{" + uri;
    assert s[i + 1..] == local;
    FindAt(s, '}', i);
  }

  /** Once a tag has its local name, the rule leaves it alone. */
  lemma LocalNameSettles(uri: string, local: string)
    requires '}' !in uri && '}' !in local
    ensures LocalName(LocalName(Name("{" + uri + "}" + local))) == Name(local)
  {
    LocalNameOfQualified(uri, local);
  }

  lemma LocalNameKept(t: Tag)
    requires t.NotAString? || '}' !in t.s
    ensures LocalName(t) == t
  {
  }

  /** The tree walk of `sanitize_response`, over the tags of all elements. */
  method StripNamespaces(tags: array<Tag>)
    modifies tags
    ensures forall k :: 0 <= k < tags.Length ==> tags[k] == LocalName(old(tags[k]))
  {
    var i := 0;
    while i < tags.Length
      invariant 0 <= i <= tags.Length
      invariant forall k :: 0 <= k < i ==> tags[k] == LocalName(old(tags[k]))
      invariant forall k :: i <= k < tags.Length ==> tags[k] == old(tags[k])
    {
      var t := tags[i];
      if t.Name? && '}' in t.s {
        tags[i] := LocalName(t);
      } else {
        LocalNameKept(t);
      }
      i := i + 1;
    }
  }
}
