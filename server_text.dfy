/**
  The string helpers of the search endpoint (diag_quicksearch.php): display
  normalisation with truncation, the "meaningful text" filter, filename
  prettifying, PHP's basename() and the path denylist that both the index
  build and the result stage apply.
 */
module ServerText {
  import opened Text

  /** The marker norm_text appends to a truncated string (U+2026). */
  const Ellipsis: char := '\U{2026}'

  // ---------------------------------------------------------------------
  // norm_text
  // ---------------------------------------------------------------------

  /** Runs of `\s` become one space, then PHP trim(). */
  function Clean(s: string): (r: string)
  {
    Trim(Collapse(s), PhpTrimChars)
  }

  /** The cleaned text has no whitespace but single spaces, and none of trim()'s characters at either end. */
  lemma CleanSpec(s: string)
    ensures var r := Clean(s);
      Squeezed(r) && (r == [] || (r[0] !in PhpTrimChars && r[|r| - 1] !in PhpTrimChars))
  {
    CollapseTrimClean(s, PhpTrimChars);
    TrimShape(Collapse(s), PhpTrimChars);
  }

  /**
    norm_text(s, max) with entity decoding and tag stripping left out: the
    cleaned text, cut to `max` characters plus an ellipsis when longer.
   */
  function NormText(s: string, max: nat): (r: string)
    ensures r == [] <==> Clean(s) == []
    ensures |r| <= max + 1
    ensures |Clean(s)| <= max ==> r == Clean(s)
    ensures |Clean(s)| > max ==> |r| == max + 1 && r[..max] == Clean(s)[..max] && r[max] == Ellipsis
  {
    var t := Clean(s);
    if t == [] then []
    else if |t| > max then t[..max] + [Ellipsis]
    else t
  }

  /** Collapsing a squeezed string changes nothing. */
  lemma {:induction false} CollapseSqueezedId(s: string)
    requires Squeezed(s)
    ensures Collapse(s) == s
    decreases |s|
  {
    if s != [] {
      SqueezedSlice(s, 1, |s|);
      if IsSpace(s[0]) {
        assert s[0] == ' ';
        assert s[1..] == [] || s[1] != ' ';
        assert DropSpaces(s[1..]) == s[1..];
      }
      CollapseSqueezedId(s[1..]);
      assert s == [s[0]] + s[1..];
    }
  }

  lemma TrimNoop(s: string, chars: set<char>)
    requires s == [] || (s[0] !in chars && s[|s| - 1] !in chars)
    ensures Trim(s, chars) == s
  {
  }

  /** A squeezed string without trim()'s characters at its ends is already clean. */
  lemma CleanFixed(r: string)
    requires Squeezed(r) && (r == [] || (r[0] !in PhpTrimChars && r[|r| - 1] !in PhpTrimChars))
    ensures Clean(r) == r
  {
    CollapseSqueezedId(r);
    TrimNoop(r, PhpTrimChars);
  }

  /** The truncated form of a clean string is clean. */
  lemma TruncatedClean(t: string, max: nat)
    requires Squeezed(t) && |t| > max && t[0] !in PhpTrimChars
    ensures Clean(t[..max] + [Ellipsis]) == t[..max] + [Ellipsis]
  {
    var r := t[..max] + [Ellipsis];
    SqueezedTake(t, max);
    SqueezedSnoc(t[..max], Ellipsis);
    assert r[0] !in PhpTrimChars by {
      if max > 0 { assert r[0] == t[0]; }
    }
    CleanFixed(r);
  }

  /** A title produced by norm_text is left as it is by norm_text. */
  lemma NormTextIdempotent(s: string, max: nat)
    ensures NormText(NormText(s, max), max) == NormText(s, max)
  {
    var t := Clean(s);
    CleanSpec(s);
    if t != [] {
      if |t| > max {
        TruncatedClean(t, max);
        var r := t[..max] + [Ellipsis];
        assert r[..max] == t[..max];
      } else {
        CleanFixed(t);
      }
    }
  }

  // ---------------------------------------------------------------------
  // looks_meaningful
  // ---------------------------------------------------------------------

  predicate HasLetter(s: string)
  {
    s != [] && (IsLetter(s[0]) || HasLetter(s[1..]))
  }

  /** At least three characters and at least one letter. */
  predicate LooksMeaningful(s: string)
  {
    |s| >= 3 && HasLetter(s)
  }

  // ---------------------------------------------------------------------
  // prettify_filename
  // ---------------------------------------------------------------------

  /**
    preg_replace('~\.php$~i', '', s): PCRE's `$` also matches in front of a
    final newline, in which case the newline stays.
   */
  function StripPhpSuffix(s: string): (r: string)
  {
    if |s| >= 4 && Lower(s[|s| - 4..]) == ".php" then s[..|s| - 4]
    else if |s| >= 5 && s[|s| - 1] == '\n' && Lower(s[|s| - 5..|s| - 1]) == ".php" then s[..|s| - 5] + "\n"
    else s
  }

  /** str_replace('_', ' ', s) */
  function Unscore(s: string): (r: string)
    ensures |r| == |s| && '_' !in r
    ensures forall i :: 0 <= i < |s| ==> r[i] == if s[i] == '_' then ' ' else s[i]
  {
    seq(|s|, i requires 0 <= i < |s| => if s[i] == '_' then ' ' else s[i])
  }

  /** A word start for ucwords: the first character, or one that follows a default delimiter (space, \t, \n, \r, \f, \v). */
  predicate DelimitedStart(s: string, i: nat)
    requires i < |s|
  {
    i == 0 || s[i - 1] in Whitespace
  }

  /** ucwords: word starts are upper-cased, every other character is left as it is. */
  function UcWords(s: string): (r: string)
    ensures |r| == |s|
    ensures forall i: nat :: i < |s| && DelimitedStart(s, i) ==> r[i] == UpperChar(s[i])
    ensures forall i: nat :: i < |s| && !DelimitedStart(s, i) ==> r[i] == s[i]
  {
    seq(|s|, i requires 0 <= i < |s| => if DelimitedStart(s, i) then UpperChar(s[i]) else s[i])
  }

  /** The cleaned filename before ucwords. */
  function FilenameWords(base: string): string
  {
    Trim(Collapse(Unscore(StripPhpSuffix(base))), PhpTrimChars)
  }

  function PrettifyFilename(base: string): (r: string)
  {
    var t := FilenameWords(base);
    if t != [] then UcWords(t) else base
  }

  lemma CleanNoUnderscore(u: string)
    requires '_' !in u
    ensures var t := Trim(Collapse(u), PhpTrimChars);
      '_' !in t && Squeezed(t) && (t == [] || (t[0] != ' ' && t[|t| - 1] != ' '))
  {
    CollapseTrimClean(u, PhpTrimChars);
    CollapseKeeps(u, '_');
    if '_' in Trim(Collapse(u), PhpTrimChars) {
      TrimSubset(Collapse(u), PhpTrimChars, '_');
    }
  }

  /** The cleaned filename has no underscore, no double space and no outer space. */
  lemma FilenameWordsShape(base: string)
    ensures var t := FilenameWords(base);
      '_' !in t && Squeezed(t) && (t == [] || (t[0] != ' ' && t[|t| - 1] != ' '))
    ensures base == [] ==> FilenameWords(base) == []
  {
    CleanNoUnderscore(Unscore(StripPhpSuffix(base)));
    if base == [] {
      assert StripPhpSuffix(base) == [];
      assert Unscore([]) == [];
    }
  }

  /**
    ucwords on a squeezed, underscore-free string keeps that shape and its
    lower-case form: the character after the start or a space is upper-cased,
    and every other character is left as it is.
   */
  lemma UcWordsShape(t: string)
    requires '_' !in t && Squeezed(t) && t != [] && t[0] != ' ' && t[|t| - 1] != ' '
    ensures var r := UcWords(t);
      && '_' !in r
      && Squeezed(r) && r[0] != ' ' && r[|r| - 1] != ' '
      && Lower(r) == Lower(t)
      && (forall i :: 0 <= i < |t| && (i == 0 || t[i - 1] == ' ') ==> r[i] == UpperChar(t[i]))
      && (forall i :: 0 <= i < |t| && !(i == 0 || t[i - 1] == ' ') ==> r[i] == t[i])
      && (forall i :: 0 <= i < |r| && (i == 0 || r[i - 1] == ' ') ==> !('a' <= r[i] <= 'z'))
  {
    var r := UcWords(t);
    forall k | 0 <= k < |t| ensures (r[k] == ' ' <==> t[k] == ' ') && r[k] != '_' && (IsSpace(r[k]) ==> r[k] == ' ') {
      assert r[k] == t[k] || r[k] == UpperChar(t[k]);
      SqueezedAt(t, k);
    }
    SqueezedLike(t, r);
    UcWordsLower(t);
    SqueezedStarts(t);
  }

  /** ucwords only changes case. */
  lemma UcWordsLower(s: string)
    ensures Lower(UcWords(s)) == Lower(s)
  {
    var r := UcWords(s);
    forall k | 0 <= k < |s| ensures Lower(r)[k] == Lower(s)[k] {
      UpperCharFacts(s[k]);
    }
  }

  /** In a squeezed string the only delimiter is the space. */
  lemma SqueezedStarts(t: string)
    requires Squeezed(t)
    ensures forall i: nat :: i < |t| ==> (DelimitedStart(t, i) <==> (i == 0 || t[i - 1] == ' '))
  {
    forall i: nat | 0 < i < |t| ensures DelimitedStart(t, i) <==> t[i - 1] == ' ' {
      SqueezedAt(t, i - 1);
    }
  }

  /**
    prettify_filename never yields an empty title for a non-empty filename,
    and gives the filename back when its cleaned name is empty. Otherwise the
    title is the cleaned name with only its word starts upper-cased: it has
    the same lower-case form, no underscore, no double or outer space, the
    first character and each one after a space upper-cased, and every other
    character as it is.
   */
  lemma PrettifyShape(base: string)
    ensures PrettifyFilename(base) == [] <==> base == []
    ensures FilenameWords(base) == [] ==> PrettifyFilename(base) == base
    ensures var t := FilenameWords(base); var r := PrettifyFilename(base);
      t != [] ==>
        && |r| == |t|
        && '_' !in r
        && Squeezed(r) && r[0] != ' ' && r[|r| - 1] != ' '
        && Lower(r) == Lower(t)
        && (forall i :: 0 <= i < |t| && (i == 0 || t[i - 1] == ' ') ==> r[i] == UpperChar(t[i]))
        && (forall i :: 0 <= i < |t| && !(i == 0 || t[i - 1] == ' ') ==> r[i] == t[i])
        && (forall i :: 0 <= i < |r| && (i == 0 || r[i - 1] == ' ') ==> !('a' <= r[i] <= 'z'))
  {
    FilenameWordsShape(base);
    var t := FilenameWords(base);
    if t != [] {
      UcWordsShape(t);
    }
  }

  // ---------------------------------------------------------------------
  // basename and should_skip_path
  // ---------------------------------------------------------------------

  /** The characters after the last '/'. */
  function AfterLastSlash(s: string): (r: string)
    ensures '/' !in r
  {
    if s == [] || s[|s| - 1] == '/' then []
    else AfterLastSlash(s[..|s| - 1]) + [s[|s| - 1]]
  }

  /** The part after the last slash is a slash-free suffix, preceded by a slash unless it is all of `s`. */
  lemma {:induction false} AfterLastSlashShape(s: string)
    ensures var r := AfterLastSlash(s);
      |r| <= |s| && r == s[|s| - |r|..]
      && (|r| < |s| ==> s[|s| - |r| - 1] == '/')
    decreases |s|
  {
    if s != [] && s[|s| - 1] != '/' {
      var p := s[..|s| - 1];
      AfterLastSlashShape(p);
      var q := AfterLastSlash(p);
      assert s == p + [s[|s| - 1]];
      DropSnoc(p, s[|s| - 1], |p| - |q|);
    }
  }

  /** PHP basename(): trailing slashes are ignored, then the last component. */
  function Basename(p: string): (r: string)
    ensures '/' !in r
  {
    AfterLastSlash(TrimEnd(p, {'/'}))
  }

  /**
    should_skip_path: the lower-cased path runs through a "/widgets/" folder,
    or its lower-cased file name mentions "edit" or "widget".
   */
  predicate ShouldSkipPath(path: string)
  {
    var lp := Lower(path);
    var base := Lower(Basename(lp));
    Contains(lp, "/widgets/") || Contains(base, "edit") || Contains(base, "widget")
  }

  lemma ContainsEmpty(t: string)
    requires t != []
    ensures !Contains([], t)
  {
  }

  lemma {:induction false} TrimEndSuffix(v: string, k: nat, chars: set<char>)
    requires k <= |v|
    ensures TrimEnd(v[k..], chars) == if k <= |TrimEnd(v, chars)| then TrimEnd(v, chars)[k..] else []
    decreases |v|
  {
    if v != [] && v[|v| - 1] in chars {
      var w := v[..|v| - 1];
      if k < |v| {
        assert v[k..][..|v[k..]| - 1] == w[k..];
        TrimEndSuffix(w, k, chars);
      }
    }
  }

  lemma {:induction false} AfterLastSlashSuffix(w: string, k: nat)
    requires k < |w| && w[k] == '/'
    ensures AfterLastSlash(w[k..]) == AfterLastSlash(w)
    decreases |w|
  {
    if w[|w| - 1] != '/' {
      var u := w[..|w| - 1];
      assert w[k..][..|w[k..]| - 1] == u[k..];
      AfterLastSlashSuffix(u, k);
    }
  }

  /** The basename of a suffix that starts at a slash is the basename of the whole, or empty. */
  lemma BasenameSuffix(v: string, k: nat)
    requires k < |v| && v[k] == '/'
    ensures Basename(v[k..]) == Basename(v) || Basename(v[k..]) == []
  {
    TrimEndSuffix(v, k, {'/'});
    var w := TrimEnd(v, {'/'});
    TrimEndPrefix(v, {'/'});
    if k < |w| {
      assert w[k] == v[k];
      AfterLastSlashSuffix(w, k);
    }
  }

  lemma {:induction false} TrimEndLower(s: string)
    ensures TrimEnd(Lower(s), {'/'}) == Lower(TrimEnd(s, {'/'}))
    decreases |s|
  {
    if s != [] {
      var ls := Lower(s);
      var p := s[..|s| - 1];
      assert ls[|s| - 1] == LowerChar(s[|s| - 1]);
      if s[|s| - 1] == '/' {
        assert ls[|s| - 1] == '/';
        LowerPrefix(s, |s| - 1);
        assert TrimEnd(ls, {'/'}) == TrimEnd(Lower(p), {'/'});
        TrimEndLower(p);
      } else {
        assert ls[|s| - 1] != '/';
      }
    }
  }

  lemma {:induction false} AfterLastSlashLower(s: string)
    ensures AfterLastSlash(Lower(s)) == Lower(AfterLastSlash(s))
    decreases |s|
  {
    if s != [] && s[|s| - 1] != '/' {
      var p := s[..|s| - 1];
      var c := s[|s| - 1];
      var ls := Lower(s);
      assert ls[|s| - 1] == LowerChar(c) != '/';
      LowerPrefix(s, |s| - 1);
      assert AfterLastSlash(ls) == AfterLastSlash(Lower(p)) + [LowerChar(c)];
      AfterLastSlashLower(p);
      LowerAppend(AfterLastSlash(p), [c]);
    }
  }

  lemma BasenameLower(s: string)
    ensures Basename(Lower(s)) == Lower(Basename(s))
  {
    TrimEndLower(s);
    AfterLastSlashLower(TrimEnd(s, {'/'}));
  }
}
