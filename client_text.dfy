/**
  The string helpers of quicksearch_inline.js: escapeHtml, humanizePath and
  titleFromItem.
 */
module ClientText {
  import opened Wrappers
  import opened Text
  import opened ServerText

  // ---------------------------------------------------------------------
  // escapeHtml
  // ---------------------------------------------------------------------

  /** The characters escapeHtml replaces. */
  predicate Special(c: char)
  {
    c == '&' || c == '<' || c == '>' || c == '"' || c == '\''
  }

  /** The replacement of one character. */
  function EscChar(c: char): string
  {
    match c
    case '&' => "&amp;"
    case '<' => "&lt;"
    case '>' => "&gt;"
    case '"' => "&quot;"
    case '\'' => "&#39;"
    case _ => [c]
  }

  /** `(s||'').replace(/[&<>"']/g, ...)`; an undefined or null argument is the empty string here. */
  function EscapeHtml(s: string): (r: string)
    ensures |r| >= |s|
  {
    if s == [] then [] else EscChar(s[0]) + EscapeHtml(s[1..])
  }

  /** `e` occurs in `t` at position `i`. */
  predicate At(t: string, i: nat, e: string)
  {
    i + |e| <= |t| && t[i..i + |e|] == e
  }

  /** One of the five entities escapeHtml writes starts at position `i`. */
  predicate EntityAt(t: string, i: nat)
  {
    At(t, i, "&amp;") || At(t, i, "&lt;") || At(t, i, "&gt;") || At(t, i, "&quot;") || At(t, i, "&#39;")
  }

  /** Decoding of exactly the five entities, the inverse the escaping is meant to have. */
  function Unescape(t: string): string
    decreases |t|
  {
    if t == [] then []
    else if StartsWith(t, "&amp;") then "&" + Unescape(t[5..])
    else if StartsWith(t, "&lt;") then "<" + Unescape(t[4..])
    else if StartsWith(t, "&gt;") then ">" + Unescape(t[4..])
    else if StartsWith(t, "&quot;") then "\"" + Unescape(t[6..])
    else if StartsWith(t, "&#39;") then "'" + Unescape(t[5..])
    else [t[0]] + Unescape(t[1..])
  }

  lemma AtShift(a: string, b: string, j: nat, e: string)
    requires At(b, j, e)
    ensures At(a + b, |a| + j, e)
  {
    assert (a + b)[|a| + j..|a| + j + |e|] == b[j..j + |e|];
  }

  lemma AtFront(a: string, b: string)
    ensures At(a + b, 0, a)
  {
    assert (a + b)[0..|a|] == a;
  }

  /** The escaped text holds no raw `<`, `>`, `"` or `'`, and every `&` in it begins one of the five entities. */
  lemma {:induction false} EscapeSafe(s: string)
    ensures forall i :: 0 <= i < |EscapeHtml(s)| ==>
      EscapeHtml(s)[i] !in {'<', '>', '"', '\''} && (EscapeHtml(s)[i] == '&' ==> EntityAt(EscapeHtml(s), i))
  {
    if s != [] {
      var e := EscChar(s[0]);
      var rest := EscapeHtml(s[1..]);
      var r := EscapeHtml(s);
      EscapeSafe(s[1..]);
      assert r == e + rest;
      forall i | 0 <= i < |r| ensures r[i] !in {'<', '>', '"', '\''} && (r[i] == '&' ==> EntityAt(r, i)) {
        if i < |e| {
          AtFront(e, rest);
        } else {
          var j := i - |e|;
          assert r[i] == rest[j];
          if rest[j] == '&' {
            if At(rest, j, "&amp;") { AtShift(e, rest, j, "&amp;"); }
            if At(rest, j, "&lt;") { AtShift(e, rest, j, "&lt;"); }
            if At(rest, j, "&gt;") { AtShift(e, rest, j, "&gt;"); }
            if At(rest, j, "&quot;") { AtShift(e, rest, j, "&quot;"); }
            if At(rest, j, "&#39;") { AtShift(e, rest, j, "&#39;"); }
          }
        }
      }
    }
  }

  /** Decoding an entity followed by more text. */
  lemma UnescapeEntity(e: string, c: char, rest: string)
    requires Special(c) && e == EscChar(c)
    ensures Unescape(e + rest) == [c] + Unescape(rest)
  {
    var t := e + rest;
    assert t[..|e|] == e && t[|e|..] == rest;
    assert t[0] == '&' && t[1] == e[1];
    if c != '&' {
      assert !StartsWith(t, "&amp;");
      if c != '<' {
        assert !StartsWith(t, "&lt;");
        if c != '>' {
          assert !StartsWith(t, "&gt;");
          if c != '"' {
            assert !StartsWith(t, "&quot;");
          }
        }
      }
    }
  }

  /** Decoding a character that is not `&` followed by more text. */
  lemma UnescapePlain(c: char, rest: string)
    requires c != '&'
    ensures Unescape([c] + rest) == [c] + Unescape(rest)
  {
    var t := [c] + rest;
    assert t[0] == c && t[1..] == rest;
  }

  lemma UnescapeFront(e: string, rest: string, c: char)
    requires e == EscChar(c)
    ensures Unescape(e + rest) == [c] + Unescape(rest)
  {
    if Special(c) {
      UnescapeEntity(e, c, rest);
    } else {
      UnescapePlain(c, rest);
    }
  }

  /** Decoding the escaped text gives the original back. */
  lemma {:induction false} EscapeRoundTrip(s: string)
    ensures Unescape(EscapeHtml(s)) == s
  {
    if s != [] {
      EscapeRoundTrip(s[1..]);
      UnescapeFront(EscChar(s[0]), EscapeHtml(s[1..]), s[0]);
      assert s == [s[0]] + s[1..];
    }
  }

  /** Text without any of the five characters passes through unchanged. */
  lemma {:induction false} EscapePlain(s: string)
    requires forall i :: 0 <= i < |s| ==> !Special(s[i])
    ensures EscapeHtml(s) == s
  {
    if s != [] {
      EscapePlain(s[1..]);
      assert s == [s[0]] + s[1..];
    }
  }

  // ---------------------------------------------------------------------
  // humanizePath
  // ---------------------------------------------------------------------

  /** `.replace(/\.php$/i, '')`: JavaScript's `$` without the m flag matches only at the very end. */
  function StripPhpEnd(s: string): string
  {
    if |s| >= 4 && Lower(s[|s| - 4..]) == ".php" then s[..|s| - 4] else s
  }

  /** Where `/\b\w/` matches: a `\w` character at the start or after a character that is not `\w`. */
  predicate WordStart(s: string, i: nat)
    requires i < |s|
  {
    IsWordChar(s[i]) && (i == 0 || !IsWordChar(s[i - 1]))
  }

  /** `.replace(/\b\w/g, c => c.toUpperCase())`: word starts are upper-cased, every other character is left as it is. */
  function UcWordStarts(s: string): (r: string)
    ensures |r| == |s|
    ensures forall i: nat :: i < |s| && WordStart(s, i) ==> r[i] == UpperChar(s[i])
    ensures forall i: nat :: i < |s| && !WordStart(s, i) ==> r[i] == s[i]
  {
    seq(|s|, i requires 0 <= i < |s| => if WordStart(s, i) then UpperChar(s[i]) else s[i])
  }

  /** The last '/' segment without ".php", underscores as spaces, whitespace runs collapsed, trimmed. */
  function PathWords(p: string): string
  {
    Trim(Collapse(Unscore(StripPhpEnd(AfterLastSlash(p)))), Whitespace)
  }

  /** humanizePath(p); an undefined or null argument is the empty string here. */
  function HumanizePath(p: string): string
  {
    UcWordStarts(PathWords(p))
  }

  lemma StripPhpEndShape(s: string)
    ensures |StripPhpEnd(s)| <= |s| && StripPhpEnd(s) == s[..|StripPhpEnd(s)|]
  {
  }

  /** The cleaned words carry no slash, no underscore, no whitespace but single inner spaces. */
  lemma PathWordsShape(p: string)
    ensures var t := PathWords(p);
      && '/' !in t && '_' !in t
      && Squeezed(t) && (t == [] || (t[0] != ' ' && t[|t| - 1] != ' '))
      && |t| <= |AfterLastSlash(p)|
  {
    var a := AfterLastSlash(p);
    var b := StripPhpEnd(a);
    var u := Unscore(b);
    var c := Collapse(u);
    var t := Trim(c, Whitespace);
    StripPhpEndShape(a);
    assert '/' !in b by {
      forall i | 0 <= i < |b| ensures b[i] != '/' {
        assert b[i] == a[i];
      }
    }
    assert '/' !in u;
    CollapseKeeps(u, '/');
    CollapseKeeps(u, '_');
    CollapseSqueezed(u);
    if '/' in t {
      TrimSubset(c, Whitespace, '/');
    }
    if '_' in t {
      TrimSubset(c, Whitespace, '_');
    }
    CollapseTrimClean(u, Whitespace);
    TrimShape(c, Whitespace);
  }

  /**
    Upper-casing word starts keeps the spaces, slashes and underscores of a
    string, its lower-case form and its word starts; no word start is left in
    lower case, and every other character is left as it is.
   */
  lemma UcWordStartsShape(t: string)
    requires '/' !in t && '_' !in t && Squeezed(t)
    ensures var r := UcWordStarts(t);
      && '/' !in r && '_' !in r && Squeezed(r)
      && (forall k :: 0 <= k < |t| ==> (r[k] == ' ' <==> t[k] == ' '))
      && Lower(r) == Lower(t)
      && (forall i: nat :: i < |t| ==> (WordStart(r, i) <==> WordStart(t, i)))
      && (forall i: nat :: i < |t| && !WordStart(t, i) ==> r[i] == t[i])
      && (forall i: nat :: i < |r| && WordStart(r, i) ==> !('a' <= r[i] <= 'z'))
  {
    var r := UcWordStarts(t);
    forall k | 0 <= k < |t|
      ensures r[k] != '/' && r[k] != '_' && (r[k] == ' ' <==> t[k] == ' ') && (IsSpace(r[k]) ==> r[k] == ' ')
      ensures LowerChar(r[k]) == LowerChar(t[k]) && (IsWordChar(r[k]) <==> IsWordChar(t[k]))
    {
      assert t[k] in t;
      UpperCharFacts(t[k]);
      SqueezedAt(t, k);
    }
    SqueezedLike(t, r);
    forall i: nat | i < |r| && WordStart(r, i) ensures !('a' <= r[i] <= 'z') {
      UpperCharFacts(t[i]);
    }
  }

  /**
    humanizePath yields a string with no slash and no underscore, single
    inner spaces only, no space at either end, no longer than the last path
    segment: the cleaned words with every word start upper-cased and every
    other character as it is.
   */
  lemma HumanizeShape(p: string)
    ensures var r := HumanizePath(p); var w := PathWords(p);
      && '/' !in r && '_' !in r
      && Squeezed(r) && (r == [] || (r[0] != ' ' && r[|r| - 1] != ' '))
      && |r| <= |AfterLastSlash(p)|
      && |r| == |w| && Lower(r) == Lower(w)
      && (forall i: nat :: i < |w| && WordStart(w, i) ==> r[i] == UpperChar(w[i]))
      && (forall i: nat :: i < |w| && !WordStart(w, i) ==> r[i] == w[i])
      && (forall i: nat :: i < |r| && WordStart(r, i) ==> !('a' <= r[i] <= 'z'))
  {
    PathWordsShape(p);
    UcWordStartsShape(PathWords(p));
  }

  /** A path with an empty last segment humanizes to the empty string. */
  lemma HumanizeEmpty(p: string)
    requires p == [] || p[|p| - 1] == '/'
    ensures HumanizePath(p) == []
  {
    assert AfterLastSlash(p) == [];
    assert Unscore([]) == [];
  }

  // ---------------------------------------------------------------------
  // titleFromItem
  // ---------------------------------------------------------------------

  /** A result record as the client receives it (`labelText` is the `label` key); an absent or null field is None. */
  datatype JsItem = JsItem(
    page: Option<string>, title: Option<string>, labelText: Option<string>,
    name: Option<string>, text: Option<string>, display: Option<string>,
    path: Option<string>)

  /** `x || ''` on a string field. */
  function Str(o: Option<string>): string
  {
    if o.Some? then o.value else []
  }

  /** The six name fields in the order the `||` chain tries them. */
  function NameFields(it: JsItem): seq<string>
  {
    [Str(it.page), Str(it.title), Str(it.labelText), Str(it.name), Str(it.text), Str(it.display)]
  }

  /** The first non-empty string, or the empty string. */
  function FirstNonEmpty(xs: seq<string>): string
  {
    if xs == [] then [] else if xs[0] != [] then xs[0] else FirstNonEmpty(xs[1..])
  }

  lemma {:induction false} FirstNonEmptySpec(xs: seq<string>)
    ensures FirstNonEmpty(xs) == [] <==> forall i :: 0 <= i < |xs| ==> xs[i] == []
    ensures FirstNonEmpty(xs) != [] ==>
      exists i :: 0 <= i < |xs| && xs[i] == FirstNonEmpty(xs) && forall j :: 0 <= j < i ==> xs[j] == []
  {
    if xs != [] && xs[0] == [] {
      FirstNonEmptySpec(xs[1..]);
      if FirstNonEmpty(xs) != [] {
        var i :| 0 <= i < |xs[1..]| && xs[1..][i] == FirstNonEmpty(xs) && forall j :: 0 <= j < i ==> xs[1..][j] == [];
        assert xs[i + 1] == FirstNonEmpty(xs);
        forall j | 0 <= j < i + 1 ensures xs[j] == [] {
          if j > 0 {
            assert xs[j] == xs[1..][j - 1];
          }
        }
      }
      assert forall i :: 0 < i < |xs| ==> xs[i] == xs[1..][i - 1];
    }
  }

  /** A path character of the test `/^\/[A-Za-z0-9/_\-.]+/`. */
  predicate PathChar(c: char)
  {
    IsAlnum(c) || c == '/' || c == '_' || c == '-' || c == '.'
  }

  /** The regular expression is anchored only at the start: a slash and one path character suffice. */
  predicate PathLike(t: string)
  {
    |t| >= 2 && t[0] == '/' && PathChar(t[1])
  }

  function TitleFromItem(it: JsItem): (r: string)
  {
    var t := FirstNonEmpty(NameFields(it));
    var t' := if t == [] || PathLike(t) then HumanizePath(Str(it.path)) else t;
    if t' != [] then t' else Str(it.path)
  }

  /**
    The title is the first non-empty name field unless that is missing or
    looks like a path; then it is the humanized path, and only when that is
    empty the raw path. It is empty only when the path is, and it never
    looks like a path unless it is the raw path.
   */
  lemma TitleSpec(it: JsItem)
    ensures var t := FirstNonEmpty(NameFields(it)); var r := TitleFromItem(it);
      && (t != [] && !PathLike(t) ==> r == t)
      && ((t == [] || PathLike(t)) && HumanizePath(Str(it.path)) != [] ==> r == HumanizePath(Str(it.path)) && '/' !in r)
      && ((t == [] || PathLike(t)) && HumanizePath(Str(it.path)) == [] ==> r == Str(it.path))
      && (r == [] ==> Str(it.path) == [])
      && (PathLike(r) ==> r == Str(it.path))
  {
    HumanizeShape(Str(it.path));
  }

  /** The name fields are tried in order: the title is the first that is set, when it does not look like a path. */
  lemma TitleFirstField(it: JsItem, i: nat)
    requires i < 6 && NameFields(it)[i] != [] && !PathLike(NameFields(it)[i])
    requires forall j :: 0 <= j < i ==> NameFields(it)[j] == []
    ensures TitleFromItem(it) == NameFields(it)[i]
  {
    var xs := NameFields(it);
    FirstNonEmptySpec(xs);
    var k :| 0 <= k < |xs| && xs[k] == FirstNonEmpty(xs) && forall j :: 0 <= j < k ==> xs[j] == [];
    assert k == i;
  }
}
