/**
  String primitives shared by the server and the client model: ASCII
  character classes, case mapping, substring search, whitespace collapsing,
  trimming and the byte-wise order used by strcmp.
 */
module Text {

  // ---------------------------------------------------------------------
  // Character classes (ASCII part of the regex classes the source uses)
  // ---------------------------------------------------------------------

  /** The characters matched by `\s` (PCRE and JavaScript, ASCII part). */
  const Whitespace: set<char> := {' ', '\t', '\n', '\r', '\U{B}', '\U{C}'}

  /** The characters that PHP's trim() removes by default. */
  const PhpTrimChars: set<char> := {' ', '\t', '\n', '\r', '\0', '\U{B}'}

  predicate IsSpace(c: char) { c in Whitespace }

  /** `\p{L}`, ASCII part. */
  predicate IsLetter(c: char) { 'a' <= c <= 'z' || 'A' <= c <= 'Z' }

  predicate IsDigit(c: char) { '0' <= c <= '9' }

  /** `[\pL\pN]`, ASCII part. */
  predicate IsAlnum(c: char) { IsLetter(c) || IsDigit(c) }

  /** JavaScript's `\w` (never Unicode-aware without the `u` flag). */
  predicate IsWordChar(c: char) { IsAlnum(c) || c == '_' }

  function LowerChar(c: char): (r: char)
    ensures 'A' <= c <= 'Z' ==> 'a' <= r <= 'z' && r as int == c as int + 32
    ensures !('A' <= c <= 'Z') ==> r == c
  {
    if 'A' <= c <= 'Z' then (c as int + 32) as char else c
  }

  function UpperChar(c: char): (r: char)
    ensures 'a' <= c <= 'z' ==> 'A' <= r <= 'Z' && r as int == c as int - 32
    ensures !('a' <= c <= 'z') ==> r == c
  {
    if 'a' <= c <= 'z' then (c as int - 32) as char else c
  }

  /** Upper-casing keeps the lower-case form and the word-character class, and leaves no lower-case letter. */
  lemma UpperCharFacts(c: char)
    ensures LowerChar(UpperChar(c)) == LowerChar(c)
    ensures IsWordChar(UpperChar(c)) <==> IsWordChar(c)
    ensures !('a' <= UpperChar(c) <= 'z')
    ensures UpperChar(c) != c ==> 'A' <= UpperChar(c) <= 'Z'
  {
  }

  /** strtolower / mb_strtolower / toLowerCase restricted to ASCII. */
  function Lower(s: string): (r: string)
    ensures |r| == |s|
    ensures forall i :: 0 <= i < |s| ==> r[i] == LowerChar(s[i])
  {
    seq(|s|, i requires 0 <= i < |s| => LowerChar(s[i]))
  }

  lemma LowerAppend(a: string, b: string)
    ensures Lower(a + b) == Lower(a) + Lower(b)
  {
    assert forall i :: 0 <= i < |a + b| ==> Lower(a + b)[i] == (Lower(a) + Lower(b))[i];
  }

  lemma LowerPrefix(s: string, k: nat)
    requires k <= |s|
    ensures Lower(s[..k]) == Lower(s)[..k]
  {
    assert forall i :: 0 <= i < k ==> Lower(s[..k])[i] == Lower(s)[..k][i];
  }

  lemma LowerSuffix(s: string, k: nat)
    requires k <= |s|
    ensures Lower(s[k..]) == Lower(s)[k..]
  {
    assert forall i :: 0 <= i < |s| - k ==> Lower(s[k..])[i] == Lower(s)[k..][i];
  }

  lemma LowerIdempotent(s: string)
    ensures Lower(Lower(s)) == Lower(s)
  {
    assert forall k :: 0 <= k < |s| ==> Lower(Lower(s))[k] == Lower(s)[k];
  }

  // ---------------------------------------------------------------------
  // Substring search (strpos(...) !== false, String.includes)
  // ---------------------------------------------------------------------

  predicate StartsWith(s: string, t: string) { |t| <= |s| && s[..|t|] == t }

  predicate EndsWith(s: string, t: string) { |t| <= |s| && s[|s| - |t|..] == t }

  /** `t` occurs in `s` at some position. */
  predicate Contains(s: string, t: string)
    decreases |s|
  {
    StartsWith(s, t) || (s != [] && Contains(s[1..], t))
  }

  lemma {:induction false} ContainsWitness(s: string, t: string, i: nat)
    requires i + |t| <= |s| && s[i..i + |t|] == t
    ensures Contains(s, t)
    decreases i
  {
    if i > 0 {
      assert s[1..][i - 1..i - 1 + |t|] == t;
      ContainsWitness(s[1..], t, i - 1);
    }
  }

  /** A substring of a suffix is a substring of the whole. */
  lemma {:induction false} ContainsSuffix(s: string, k: nat, t: string)
    requires k <= |s| && Contains(s[k..], t)
    ensures Contains(s, t)
    decreases k
  {
    if k > 0 {
      assert s[1..][k - 1..] == s[k..];
      ContainsSuffix(s[1..], k - 1, t);
    }
  }

  /** A pattern whose last character `c` (not its first) never occurs after the first character of `s` is absent. */
  lemma {:induction false} ContainsLastMissing(s: string, t: string, c: char)
    requires |t| >= 2 && t[|t| - 1] == c && forall k :: 1 <= k < |s| ==> s[k] != c
    ensures !Contains(s, t)
    decreases |s|
  {
    if |s| > 1 {
      ContainsLastMissing(s[1..], t, c);
    }
  }

  /** implode(sep, xs) */
  function Join(xs: seq<string>, sep: string): (r: string)
    ensures |xs| >= 1 ==> StartsWith(r, xs[0])
  {
    if |xs| == 0 then []
    else if |xs| == 1 then xs[0]
    else xs[0] + sep + Join(xs[1..], sep)
  }

  lemma JoinCons(x: string, xs: seq<string>, sep: string)
    requires xs != []
    ensures Join([x] + xs, sep) == x + sep + Join(xs, sep)
  {
    assert ([x] + xs)[1..] == xs;
  }

  lemma SplitAround<T>(s: seq<T>, i: nat)
    requires i < |s|
    ensures s == s[..i] + [s[i]] + s[i + 1..]
  {
  }

  /** Every joined piece occurs in the joined string. */
  lemma {:induction false} JoinContains(xs: seq<string>, sep: string, i: nat)
    requires i < |xs|
    ensures Contains(Join(xs, sep), xs[i])
  {
    var r := Join(xs, sep);
    if i == 0 {
      assert r[0..|xs[0]|] == xs[0];
      ContainsWitness(r, xs[0], 0);
    } else {
      JoinContains(xs[1..], sep, i - 1);
      var k := |xs[0] + sep|;
      assert r[k..] == Join(xs[1..], sep);
      ContainsSuffix(r, k, xs[i]);
    }
  }

  // ---------------------------------------------------------------------
  // Whitespace: preg_replace('/\s+/', ' ', s) and trimming
  // ---------------------------------------------------------------------

  /** Drops the leading run of `\s` characters. */
  function DropSpaces(s: string): (r: string)
    ensures |r| <= |s| && r == s[|s| - |r|..]
    ensures r == [] || !IsSpace(r[0])
    ensures forall i :: 0 <= i < |s| - |r| ==> IsSpace(s[i])
  {
    if s != [] && IsSpace(s[0]) then DropSpaces(s[1..]) else s
  }

  /** Every maximal run of `\s` characters becomes one space. */
  function Collapse(s: string): (r: string)
    decreases |s|
  {
    if s == [] then []
    else if IsSpace(s[0]) then " " + Collapse(DropSpaces(s[1..]))
    else [s[0]] + Collapse(s[1..])
  }

  /**
    A squeezed string has no whitespace other than single spaces: what
    Collapse promises.
   */
  predicate Squeezed(s: string)
    decreases |s|
  {
    s == [] ||
      ((IsSpace(s[0]) ==> s[0] == ' ')
      && (|s| >= 2 && s[0] == ' ' ==> s[1] != ' ')
      && Squeezed(s[1..]))
  }

  /** Squeezed, position by position. */
  lemma {:induction false} SqueezedAt(s: string, i: nat)
    requires Squeezed(s) && i < |s|
    ensures IsSpace(s[i]) ==> s[i] == ' '
    ensures i + 1 < |s| && s[i] == ' ' ==> s[i + 1] != ' '
    decreases i
  {
    if i > 0 {
      SqueezedAt(s[1..], i - 1);
    }
  }

  /** A string with the same spaces as a squeezed one, and no other whitespace, is squeezed. */
  lemma {:induction false} SqueezedLike(t: string, r: string)
    requires Squeezed(t) && |r| == |t|
    requires forall k :: 0 <= k < |t| ==> (r[k] == ' ' <==> t[k] == ' ') && (IsSpace(r[k]) ==> r[k] == ' ')
    ensures Squeezed(r)
    decreases |t|
  {
    if t != [] {
      SqueezedLike(t[1..], r[1..]);
    }
  }

  lemma {:induction false} CollapseSqueezed(s: string)
    ensures Squeezed(Collapse(s))
    ensures |Collapse(s)| <= |s|
    ensures Collapse(s) != [] && Collapse(s)[0] == ' ' <==> s != [] && IsSpace(s[0])
    ensures Collapse(s) == [] <==> s == []
    decreases |s|
  {
    if s == [] {
    } else if IsSpace(s[0]) {
      var t := DropSpaces(s[1..]);
      CollapseSqueezed(t);
      assert Collapse(s) == " " + Collapse(t);
    } else {
      CollapseSqueezed(s[1..]);
      assert Collapse(s) == [s[0]] + Collapse(s[1..]);
    }
  }

  /** Collapse only ever turns whitespace into spaces; other characters stay. */
  lemma {:induction false} CollapseKeeps(s: string, c: char)
    requires !IsSpace(c)
    ensures c in Collapse(s) <==> c in s
    decreases |s|
  {
    if s == [] {
    } else if IsSpace(s[0]) {
      var t := DropSpaces(s[1..]);
      CollapseKeeps(t, c);
      assert c in s[1..] <==> c in t by {
        assert s[1..] == s[1..][..|s[1..]| - |t|] + t;
      }
      assert s == [s[0]] + s[1..];
    } else {
      CollapseKeeps(s[1..], c);
      assert s == [s[0]] + s[1..];
    }
  }

  function TrimStart(s: string, chars: set<char>): (r: string)
    ensures |r| <= |s|
    ensures r == [] || r[0] !in chars
  {
    if s != [] && s[0] in chars then TrimStart(s[1..], chars) else s
  }

  function TrimEnd(s: string, chars: set<char>): (r: string)
    ensures |r| <= |s|
    ensures r == [] || r[|r| - 1] !in chars
  {
    if s != [] && s[|s| - 1] in chars then TrimEnd(s[..|s| - 1], chars) else s
  }

  /** ltrim() removes a prefix. */
  lemma {:induction false} TrimStartSuffix(s: string, chars: set<char>)
    ensures TrimStart(s, chars) == s[|s| - |TrimStart(s, chars)|..]
  {
    if s != [] && s[0] in chars {
      TrimStartSuffix(s[1..], chars);
      assert s[1..][|s| - 1 - |TrimStart(s, chars)|..] == s[|s| - |TrimStart(s, chars)|..];
    }
  }

  /** rtrim() removes a suffix. */
  lemma {:induction false} TrimEndPrefix(s: string, chars: set<char>)
    ensures TrimEnd(s, chars) == s[..|TrimEnd(s, chars)|]
  {
    if s != [] && s[|s| - 1] in chars {
      TrimEndPrefix(s[..|s| - 1], chars);
      assert s[..|s| - 1][..|TrimEnd(s, chars)|] == s[..|TrimEnd(s, chars)|];
    }
  }

  /** Strip characters of `chars` from both ends. */
  function Trim(s: string, chars: set<char>): (r: string)
  {
    TrimEnd(TrimStart(s, chars), chars)
  }

  lemma TakeOfDrop<T>(s: seq<T>, i: nat, n: nat)
    requires i + n <= |s|
    ensures s[i..][..n] == s[i..i + n]
  {
  }

  lemma DropSnoc<T>(p: seq<T>, c: T, k: nat)
    requires k <= |p|
    ensures (p + [c])[k..] == p[k..] + [c]
  {
  }

  /** What trimming keeps is one contiguous piece, without the trimmed characters at either end. */
  lemma TrimShape(s: string, chars: set<char>)
    ensures var r := Trim(s, chars); var i := |s| - |TrimStart(s, chars)|;
      i + |r| <= |s| && r == s[i..i + |r|]
      && (r == [] || (r[0] !in chars && r[|r| - 1] !in chars))
  {
    var a := TrimStart(s, chars);
    var r := TrimEnd(a, chars);
    var i := |s| - |a|;
    TrimStartSuffix(s, chars);
    TrimEndPrefix(a, chars);
    TakeOfDrop(s, i, |r|);
  }

  /** Trimming only removes characters. */
  lemma TrimSubset(s: string, chars: set<char>, c: char)
    requires c in Trim(s, chars)
    ensures c in s
  {
    TrimShape(s, chars);
    var r := Trim(s, chars);
    var i := |s| - |TrimStart(s, chars)|;
    var k :| 0 <= k < |r| && r[k] == c;
    assert s[i + k] == c;
  }

  lemma {:induction false} SqueezedDrop(s: string, i: nat)
    requires Squeezed(s) && i <= |s|
    ensures Squeezed(s[i..])
    decreases i
  {
    if i > 0 {
      SqueezedDrop(s[1..], i - 1);
      assert s[1..][i - 1..] == s[i..];
    }
  }

  lemma {:induction false} SqueezedTake(s: string, j: nat)
    requires Squeezed(s) && j <= |s|
    ensures Squeezed(s[..j])
    decreases j
  {
    if j > 0 {
      SqueezedTake(s[1..], j - 1);
      assert s[..j][1..] == s[1..][..j - 1];
    }
  }

  lemma SqueezedSlice(s: string, i: nat, j: nat)
    requires Squeezed(s) && i <= j <= |s|
    ensures Squeezed(s[i..j])
  {
    SqueezedTake(s, j);
    SqueezedDrop(s[..j], i);
    assert s[..j][i..] == s[i..j];
  }

  /** Appending a character that is not whitespace keeps a string squeezed. */
  lemma {:induction false} SqueezedSnoc(s: string, c: char)
    requires Squeezed(s) && !IsSpace(c)
    ensures Squeezed(s + [c])
    decreases |s|
  {
    if s != [] {
      SqueezedSnoc(s[1..], c);
      assert (s + [c])[1..] == s[1..] + [c];
    }
  }

  /** Trimming a squeezed string keeps it squeezed and leaves no space at either end. */
  lemma TrimSqueezed(c: string, chars: set<char>)
    requires ' ' in chars && Squeezed(c)
    ensures var r := Trim(c, chars);
      Squeezed(r) && (r == [] || (r[0] != ' ' && r[|r| - 1] != ' '))
  {
    TrimShape(c, chars);
    var r := Trim(c, chars);
    var i := |c| - |TrimStart(c, chars)|;
    SqueezedSlice(c, i, i + |r|);
  }

  /**
    Collapse then trim: no tab, newline or double space is left, and
    the ends carry no space.
   */
  lemma CollapseTrimClean(s: string, chars: set<char>)
    requires ' ' in chars
    ensures var r := Trim(Collapse(s), chars);
      Squeezed(r) && (r == [] || (r[0] != ' ' && r[|r| - 1] != ' '))
  {
    var c := Collapse(s);
    CollapseSqueezed(s);
    TrimSqueezed(c, chars);
  }

  // ---------------------------------------------------------------------
  // strcmp: byte-wise lexicographic order
  // ---------------------------------------------------------------------

  /** strcmp(a, b) <= 0. */
  predicate StrLe(a: string, b: string)
  {
    if a == [] then true
    else if b == [] then false
    else if a[0] != b[0] then a[0] < b[0]
    else StrLe(a[1..], b[1..])
  }

  lemma {:induction false} StrLeTotal(a: string, b: string)
    ensures StrLe(a, b) || StrLe(b, a)
  {
    if a != [] && b != [] && a[0] == b[0] { StrLeTotal(a[1..], b[1..]); }
  }

  lemma {:induction false} StrLeTrans(a: string, b: string, c: string)
    requires StrLe(a, b) && StrLe(b, c)
    ensures StrLe(a, c)
  {
    if a != [] && b != [] && c != [] && a[0] == b[0] && b[0] == c[0] {
      StrLeTrans(a[1..], b[1..], c[1..]);
    }
  }

  lemma {:induction false} StrLeAntisym(a: string, b: string)
    requires StrLe(a, b) && StrLe(b, a)
    ensures a == b
  {
    if a != [] && b != [] {
      StrLeAntisym(a[1..], b[1..]);
      assert a == [a[0]] + a[1..];
      assert b == [b[0]] + b[1..];
    }
  }
}
