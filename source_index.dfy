/**
  Index assembly of the search endpoint (diag_quicksearch.php): the page
  title of a source file, the UI strings mined from it, and the flat index
  of (id, title, path, page) records that build_source_index returns.

  The regular expressions that mine a PHP source are not modelled: each file
  comes with what they found (`Mined`), in the order the source visits it.
 */
module SourceIndex {
  import opened Wrappers
  import opened Text
  import opened Seqs
  import opened ServerText

  /** The default `$max` of norm_text. */
  const DefaultMaxLen: nat := 220

  /** `$max_text_per_file`, `$max_index_size` and `$max_str_len` of the settings block. */
  const MaxTextPerFile: int := 300
  const MaxIndexSize: int := 50000
  const MaxStrLen: nat := 220

  /** Files larger than this many bytes are not read. */
  const MaxFileSize: int := 1500000

  /** The web root prefix with its trailing slash. */
  const WebRoot: string := "/usr/local/www/"

  /** One index record (and the shape the ranking reads back from the cache). */
  datatype Doc = Doc(id: int, title: string, path: string, page: Option<string>)

  /** What the regular expressions find in one PHP source. */
  datatype Mined = Mined(
    starName: Option<string>,  // capture of the first `##|*NAME=` line
    name: Option<string>,      // capture of the first `##|NAME=` line
    crumbs: seq<string>,       // every raw $pgtitle string, in the order they are appended
    snippets: seq<string>)     // every raw UI string, in the order `$add` is called

  /**
    A file of the list being indexed: its full path, what filesize() and
    file_get_contents() return (None for false), and what is mined from it.
   */
  datatype SourceFile = SourceFile(fp: string, size: Option<int>, src: Option<string>, mined: Mined)

  /** The cap test `count($out) >= $cap` comes after the append, so a cap below one still lets one record out. */
  function Cap(limit: int): (c: nat)
    ensures c >= 1 && (limit >= 1 ==> c == limit)
  {
    if limit < 1 then 1 else limit
  }

  // ---------------------------------------------------------------------
  // derive_page_title_from_php
  // ---------------------------------------------------------------------

  /** The `$t = norm_text($s); if ($t !== '') $crumbs[] = $t;` loops. */
  function NonEmptyNorm(raws: seq<string>): seq<string>
  {
    DropEmpty(Norms(raws, DefaultMaxLen))
  }

  /** The crumbs collected are exactly the non-empty normal forms of the raw strings. */
  lemma NonEmptyNormMembers(raws: seq<string>, t: string)
    ensures t in NonEmptyNorm(raws) <==> exists j :: 0 <= j < |raws| && t == NormText(raws[j], DefaultMaxLen) && t != []
  {
    var ns := Norms(raws, DefaultMaxLen);
    DropEmptyMembers(ns, t);
    if t in ns {
      var j :| 0 <= j < |ns| && ns[j] == t;
    }
  }

  /** The normalised value of a NAME directive, or "" when the directive is absent. */
  function Directive(d: Option<string>): string
  {
    if d.Some? then NormText(d.value, DefaultMaxLen) else []
  }

  /** The de-duplicated crumbs in first-seen order. */
  function Crumbs(m: Mined): seq<string>
  {
    Dedup(NonEmptyNorm(m.crumbs))
  }

  /**
    `##|*NAME=` wins, then `##|NAME=`, then the crumbs joined with " / ",
    then the prettified filename.
   */
  function DerivePageTitle(m: Mined, base: string): (r: string)
  {
    if Directive(m.starName) != [] then Directive(m.starName)
    else if Directive(m.name) != [] then Directive(m.name)
    else if Crumbs(m) != [] then Join(Crumbs(m), " / ")
    else PrettifyFilename(base)
  }

  /**
    The crumbs are distinct, non-empty, ordered by first occurrence, and are
    exactly the non-empty normalised $pgtitle strings; when no NAME directive
    decides, each of them occurs in the title and the title starts with the
    first. The title is empty only when the filename is.
   */
  lemma PageTitleSpec(m: Mined, base: string)
    ensures var c := Crumbs(m);
      && NoDup(c)
      && (forall i :: 0 <= i < |c| ==> c[i] != [])
      && (forall t :: t in c <==> t in NonEmptyNorm(m.crumbs))
      && (forall i, j :: 0 <= i < j < |c| ==> FirstIndex(NonEmptyNorm(m.crumbs), c[i]) < FirstIndex(NonEmptyNorm(m.crumbs), c[j]))
    ensures var r := DerivePageTitle(m, base); var c := Crumbs(m);
      Directive(m.starName) == [] && Directive(m.name) == [] && c != [] ==>
        StartsWith(r, c[0]) && forall i :: 0 <= i < |c| ==> Contains(r, c[i])
    ensures base != [] ==> DerivePageTitle(m, base) != []
  {
    var n := NonEmptyNorm(m.crumbs);
    var c := Crumbs(m);
    DedupSpec(n);
    forall i | 0 <= i < |c| ensures c[i] != [] && Contains(Join(c, " / "), c[i]) {
      assert c[i] in n;
      JoinContains(c, " / ", i);
    }
    PrettifyShape(base);
  }

  // ---------------------------------------------------------------------
  // extract_texts_from_php
  // ---------------------------------------------------------------------

  /** The body of the `$add` closure once its argument is normalised. */
  function Keep(out: seq<string>, t: string, cap: int): (r: seq<string>)
    ensures r == out || (|out| < cap && LooksMeaningful(t) && r == out + [t])
    ensures |out| < cap && LooksMeaningful(t) ==> r == out + [t]
  {
    if |out| >= cap then out
    else if t != [] && LooksMeaningful(t) then out + [t]
    else out
  }

  /** `$out` after `$add` has been handed the normalised strings `ts`. */
  function Gather(ts: seq<string>, cap: int): (c: seq<string>)
    ensures |c| <= if cap < 0 then 0 else cap
    ensures forall i :: 0 <= i < |c| ==> LooksMeaningful(c[i])
  {
    if ts == [] then [] else Keep(Gather(ts[..|ts| - 1], cap), ts[|ts| - 1], cap)
  }

  lemma {:induction false} GatherFrom(ts: seq<string>, cap: int)
    ensures forall t :: t in Gather(ts, cap) ==> t in ts
  {
    if ts != [] {
      var p := ts[..|ts| - 1];
      GatherFrom(p, cap);
      assert forall t :: t in p ==> t in ts;
    }
  }

  /** Below the cap, every meaningful string was kept. */
  lemma {:induction false} GatherComplete(ts: seq<string>, cap: int, j: nat)
    requires j < |ts| && LooksMeaningful(ts[j])
    requires |Gather(ts, cap)| < cap
    ensures ts[j] in Gather(ts, cap)
  {
    var p := ts[..|ts| - 1];
    if j < |p| {
      assert p[j] == ts[j];
      GatherComplete(p, cap, j);
    }
  }

  /** norm_text with `$maxlen` applied to every raw string. */
  function Norms(raws: seq<string>, maxlen: nat): (ts: seq<string>)
    ensures |ts| == |raws|
    ensures forall i :: 0 <= i < |raws| ==> ts[i] == NormText(raws[i], maxlen)
  {
    seq(|raws|, i requires 0 <= i < |raws| => NormText(raws[i], maxlen))
  }

  /** What extract_texts_from_php returns: the kept strings without repeats. */
  function Extracted(raws: seq<string>, cap: int, maxlen: nat): seq<string>
  {
    Dedup(Gather(Norms(raws, maxlen), cap))
  }

  /**
    The extracted texts are distinct, ordered by first occurrence among the
    kept strings, at most `cap` many, each meaningful and at most `maxlen` + 1
    characters; when the cap was not reached, every raw string whose normal
    form is meaningful is among them.
   */
  lemma ExtractedSpec(raws: seq<string>, cap: int, maxlen: nat)
    ensures var c := Gather(Norms(raws, maxlen), cap); var r := Extracted(raws, cap, maxlen);
      && NoDup(r)
      && |r| <= (if cap < 0 then 0 else cap)
      && (forall i :: 0 <= i < |r| ==> LooksMeaningful(r[i]) && |r[i]| <= maxlen + 1)
      && (forall t :: t in r <==> t in c)
      && (forall i, j :: 0 <= i < j < |r| ==> FirstIndex(c, r[i]) < FirstIndex(c, r[j]))
    ensures |Gather(Norms(raws, maxlen), cap)| < cap ==>
      forall j :: 0 <= j < |raws| && LooksMeaningful(NormText(raws[j], maxlen)) ==>
        NormText(raws[j], maxlen) in Extracted(raws, cap, maxlen)
  {
    var ts := Norms(raws, maxlen);
    var c := Gather(ts, cap);
    var r := Extracted(raws, cap, maxlen);
    DedupSpec(c);
    GatherFrom(ts, cap);
    forall i | 0 <= i < |r| ensures LooksMeaningful(r[i]) && |r[i]| <= maxlen + 1 {
      assert r[i] in c;
      assert r[i] in ts;
    }
    if |c| < cap {
      forall j | 0 <= j < |raws| && LooksMeaningful(NormText(raws[j], maxlen))
        ensures NormText(raws[j], maxlen) in r
      {
        GatherComplete(ts, cap, j);
      }
    }
  }

  /** The `$add` calls over the raw strings, then the `$seen` / `$uniq` pass. */
  method ExtractTexts(raws: seq<string>, cap: int, maxlen: nat) returns (uniq: seq<string>)
    ensures uniq == Extracted(raws, cap, maxlen)
  {
    var out := AddAll(raws, cap, maxlen);
    uniq := Unique(out);
  }

  /** The `$add` loop: each raw string is normalised and kept while below the cap. */
  method AddAll(raws: seq<string>, cap: int, maxlen: nat) returns (out: seq<string>)
    ensures out == Gather(Norms(raws, maxlen), cap)
  {
    ghost var ts := Norms(raws, maxlen);
    out := [];
    for i := 0 to |raws|
      invariant out == Gather(ts[..i], cap)
    {
      assert ts[..i + 1][..i] == ts[..i];
      var t := NormText(raws[i], maxlen);
      out := Keep(out, t, cap);
    }
    assert ts[..|raws|] == ts;
  }

  /** The `$seen` / `$uniq` pass: first occurrences in order. */
  method Unique(out: seq<string>) returns (uniq: seq<string>)
    ensures uniq == Dedup(out)
  {
    var seen: set<string> := {};
    uniq := [];
    for i := 0 to |out|
      invariant uniq == Dedup(out[..i])
      invariant forall t :: t in seen <==> t in uniq
    {
      assert out[..i + 1][..i] == out[..i];
      if out[i] !in seen {
        seen := seen + {out[i]};
        uniq := uniq + [out[i]];
      }
    }
    assert out[..|out|] == out;
  }

  // ---------------------------------------------------------------------
  // build_source_index
  // ---------------------------------------------------------------------

  /** The per-file guards: denylisted path, unreadable, empty or too large file, empty source. */
  predicate Accepted(f: SourceFile)
  {
    && !ShouldSkipPath(f.fp)
    && f.size.Some? && f.size.value > 0
    && f.size.value <= MaxFileSize
    && f.src.Some? && f.src.value != []
  }

  /** The path below the web root (keeping its leading slash), else "/" and the basename. */
  function WebPath(fp: string): (r: string)
    ensures r != [] && r[0] == '/'
  {
    if StartsWith(fp, WebRoot) then fp[|WebRoot| - 1..] else "/" + Basename(fp)
  }

  lemma {:induction false} AfterLastSlashRooted(b: string)
    requires '/' !in b
    ensures AfterLastSlash("/" + b) == b
    decreases |b|
  {
    if b != [] {
      var s := "/" + b;
      var p := b[..|b| - 1];
      assert s[..|s| - 1] == "/" + p;
      assert b[|b| - 1] in b;
      assert forall c :: c in p ==> c in b;
      AfterLastSlashRooted(p);
      assert b == p + [b[|b| - 1]];
    }
  }

  /** The basename of "/" followed by a slash-free name is that name. */
  lemma BasenameRooted(b: string)
    requires '/' !in b
    ensures Basename("/" + b) == b
  {
    var s := "/" + b;
    if b != [] {
      assert s[|s| - 1] == b[|b| - 1];
      assert b[|b| - 1] in b;
      assert TrimEnd(s, {'/'}) == s;
      AfterLastSlashRooted(b);
    } else {
      assert TrimEnd(s, {'/'}) == [];
    }
  }

  lemma NoWidgetsDir(b: string)
    requires '/' !in b
    ensures !Contains("/" + b, "/widgets/")
  {
    var s := "/" + b;
    forall k | 1 <= k < |s| ensures s[k] != '/' {
      assert s[k] == b[k - 1];
      assert b[k - 1] in b;
    }
    ContainsLastMissing(s, "/widgets/", '/');
  }

  /** Below the web root the web path is a suffix of the full path that starts at a slash. */
  lemma WebPathUnderRoot(fp: string)
    requires !ShouldSkipPath(fp) && StartsWith(fp, WebRoot)
    ensures !ShouldSkipPath(WebPath(fp))
  {
    var k := |WebRoot| - 1;
    var lf := Lower(fp);
    assert WebPath(fp) == fp[k..];
    LowerSuffix(fp, k);
    assert lf[k] == '/' by { assert fp[k] == '/'; }
    BasenameSuffix(lf, k);
    if Contains(lf[k..], "/widgets/") {
      ContainsSuffix(lf, k, "/widgets/");
    }
    ContainsEmpty("edit");
    ContainsEmpty("widget");
  }

  /** Elsewhere the web path is "/" and the basename. */
  lemma WebPathOutsideRoot(fp: string)
    requires !ShouldSkipPath(fp) && !StartsWith(fp, WebRoot)
    ensures !ShouldSkipPath(WebPath(fp))
  {
    var b := Basename(fp);
    var lb := Basename(Lower(fp));
    BasenameLower(fp);
    LowerAppend("/", b);
    assert Lower("/") == "/";
    BasenameRooted(lb);
    NoWidgetsDir(lb);
  }

  /** A path the walk admits keeps being admitted as a web path. */
  lemma WebPathNotSkipped(fp: string)
    requires !ShouldSkipPath(fp)
    ensures !ShouldSkipPath(WebPath(fp))
  {
    if StartsWith(fp, WebRoot) {
      WebPathUnderRoot(fp);
    } else {
      WebPathOutsideRoot(fp);
    }
  }

  /** One (title, path, page) row before it gets its id. */
  datatype Entry = Entry(title: string, path: string, page: string)

  /** The texts of an accepted file, or its prettified filename when none were found. */
  function FileTexts(f: SourceFile, perFileCap: int, maxStrLen: nat): (r: seq<string>)
    ensures r != []
  {
    var t := Extracted(f.mined.snippets, perFileCap, maxStrLen);
    if t == [] then [PrettifyFilename(Basename(f.fp))] else t
  }

  function Rows(texts: seq<string>, path: string, page: string): (r: seq<Entry>)
    ensures |r| == |texts|
    ensures forall i :: 0 <= i < |r| ==> r[i] == Entry(texts[i], path, page)
  {
    seq(|texts|, i requires 0 <= i < |texts| => Entry(texts[i], path, page))
  }

  /** The rows an accepted file contributes; a rejected file contributes none. */
  function FileRows(f: SourceFile, perFileCap: int, maxStrLen: nat): seq<Entry>
  {
    if Accepted(f) then
      Rows(FileTexts(f, perFileCap, maxStrLen), WebPath(f.fp), DerivePageTitle(f.mined, Basename(f.fp)))
    else []
  }

  function PerFile(files: seq<SourceFile>, perFileCap: int, maxStrLen: nat): (r: seq<seq<Entry>>)
    ensures |r| == |files|
    ensures forall i :: 0 <= i < |files| ==> r[i] == FileRows(files[i], perFileCap, maxStrLen)
  {
    seq(|files|, i requires 0 <= i < |files| => FileRows(files[i], perFileCap, maxStrLen))
  }

  /** Every row of every file, in file order, with no cap applied. */
  function Entries(files: seq<SourceFile>, perFileCap: int, maxStrLen: nat): seq<Entry>
  {
    Flatten(PerFile(files, perFileCap, maxStrLen))
  }

  /** Rows numbered from 1 in order. */
  function Number(es: seq<Entry>): (r: seq<Doc>)
    ensures |r| == |es|
    ensures forall k :: 0 <= k < |r| ==> r[k] == Doc(k + 1, es[k].title, es[k].path, Some(es[k].page))
  {
    seq(|es|, k requires 0 <= k < |es| => Doc(k + 1, es[k].title, es[k].path, Some(es[k].page)))
  }

  /**
    The index: the first Cap(max_index) rows, numbered. It is at most
    `max_index` records long, ids are positions plus one, and every record
    carries a page title.
   */
  function BuildSpec(files: seq<SourceFile>, perFileCap: int, maxIndex: int, maxStrLen: nat): (r: seq<Doc>)
    ensures |r| <= Cap(maxIndex)
    ensures forall k :: 0 <= k < |r| ==> r[k].id == k + 1 && r[k].page.Some?
    ensures var all := Entries(files, perFileCap, maxStrLen);
      |r| == (if |all| <= Cap(maxIndex) then |all| else Cap(maxIndex))
  {
    var all := Entries(files, perFileCap, maxStrLen);
    Number(all[..if |all| <= Cap(maxIndex) then |all| else Cap(maxIndex)])
  }

  lemma NumberSnoc(es: seq<Entry>, e: Entry)
    ensures Number(es + [e]) == Number(es) + [Doc(|es| + 1, e.title, e.path, Some(e.page))]
  {
  }

  lemma RowsSnoc(texts: seq<string>, j: nat, path: string, page: string)
    requires j < |texts|
    ensures Rows(texts[..j + 1], path, page) == Rows(texts[..j], path, page) + [Entry(texts[j], path, page)]
    ensures Rows(texts, path, page)[..j + 1] == Rows(texts[..j + 1], path, page)
  {
  }

  lemma Singleton(r: seq<Entry>, e: Entry)
    requires |r| == 1 && r[0] == e
    ensures r == [e]
  {
  }

  lemma RowsEmpty(before: seq<Entry>, texts: seq<string>, path: string, page: string)
    ensures before + Rows(texts[..0], path, page) == before
  {
    assert Rows(texts[..0], path, page) == [];
  }

  lemma RowsStep(before: seq<Entry>, texts: seq<string>, j: nat, path: string, page: string)
    requires j < |texts|
    ensures (before + Rows(texts[..j], path, page)) + [Entry(texts[j], path, page)] == before + Rows(texts[..j + 1], path, page)
  {
    RowsSnoc(texts, j, path, page);
  }

  lemma RowsTake(before: seq<Entry>, texts: seq<string>, j: nat, path: string, page: string)
    requires j <= |texts|
    ensures (before + Rows(texts, path, page))[..|before| + j] == before + Rows(texts[..j], path, page)
  {
    assert Rows(texts, path, page)[..j] == Rows(texts[..j], path, page);
  }

  lemma RowsWhole(texts: seq<string>, path: string, page: string)
    ensures Rows(texts[..|texts|], path, page) == Rows(texts, path, page)
  {
    assert texts[..|texts|] == texts;
  }

  lemma PerFileSnoc(files: seq<SourceFile>, f: SourceFile, perFileCap: int, maxStrLen: nat)
    ensures Entries(files + [f], perFileCap, maxStrLen) == Entries(files, perFileCap, maxStrLen) + FileRows(f, perFileCap, maxStrLen)
  {
    var pf := PerFile(files, perFileCap, maxStrLen);
    assert PerFile(files + [f], perFileCap, maxStrLen) == pf + [FileRows(f, perFileCap, maxStrLen)];
    FlattenSnoc(pf, FileRows(f, perFileCap, maxStrLen));
  }

  /** While the rows fit under the cap, the index is all of them. */
  lemma BuildUnderCap(files: seq<SourceFile>, perFileCap: int, maxIndex: int, maxStrLen: nat)
    requires |Entries(files, perFileCap, maxStrLen)| <= Cap(maxIndex)
    ensures BuildSpec(files, perFileCap, maxIndex, maxStrLen) == Number(Entries(files, perFileCap, maxStrLen))
  {
    var all := Entries(files, perFileCap, maxStrLen);
    assert all[..|all|] == all;
  }

  /** Once Cap(max_index) rows of a prefix of the rows are out, the index is complete. */
  lemma BuildAtCap(files: seq<SourceFile>, perFileCap: int, maxIndex: int, maxStrLen: nat, done: seq<Entry>)
    requires |done| == Cap(maxIndex)
    requires |done| <= |Entries(files, perFileCap, maxStrLen)|
    requires Entries(files, perFileCap, maxStrLen)[..|done|] == done
    ensures BuildSpec(files, perFileCap, maxIndex, maxStrLen) == Number(done)
  {
  }

  /** Leaving the file loop at the cap while handling file `i` yields the index. */
  lemma BuildStopped(files: seq<SourceFile>, perFileCap: int, maxIndex: int, maxStrLen: nat, i: nat, out: seq<Doc>)
    requires i < |files|
    requires var pf := PerFile(files, perFileCap, maxStrLen);
      var all := Flatten(pf[..i + 1]);
      Cap(maxIndex) <= |all| && out == Number(all[..Cap(maxIndex)])
    ensures out == BuildSpec(files, perFileCap, maxIndex, maxStrLen)
  {
    var pf := PerFile(files, perFileCap, maxStrLen);
    var done := Flatten(pf[..i + 1]);
    FlattenPrefix(pf, i + 1);
    PrefixTake(Flatten(pf), done, Cap(maxIndex));
    BuildAtCap(files, perFileCap, maxIndex, maxStrLen, done[..Cap(maxIndex)]);
  }

  /** The body of the file loop up to the row loop: web path, basename, page title and texts of one file. */
  method IndexFile(f: SourceFile, perFileCap: int, maxStrLen: nat) returns (texts: seq<string>, path: string, pageTitle: string)
    requires Accepted(f)
    ensures texts == FileTexts(f, perFileCap, maxStrLen)
    ensures path == WebPath(f.fp) && pageTitle == DerivePageTitle(f.mined, Basename(f.fp))
    ensures FileRows(f, perFileCap, maxStrLen) == Rows(texts, path, pageTitle)
  {
    path := WebPath(f.fp);
    var base := Basename(f.fp);
    pageTitle := DerivePageTitle(f.mined, base);
    texts := ExtractTexts(f.mined.snippets, perFileCap, maxStrLen);
    if texts == [] {
      texts := [PrettifyFilename(base)];
    }
  }

  /** build_source_index: the nested loop over files and texts, leaving both loops at the cap. */
  method BuildSourceIndex(files: seq<SourceFile>, perFileCap: int, maxIndex: int, maxStrLen: nat) returns (out: seq<Doc>)
    ensures out == BuildSpec(files, perFileCap, maxIndex, maxStrLen)
  {
    ghost var pf := PerFile(files, perFileCap, maxStrLen);
    out := [];
    var i := 0;
    while i < |files|
      invariant 0 <= i <= |files|
      invariant out == Number(Flatten(pf[..i]))
      invariant |out| < Cap(maxIndex)
    {
      FlattenStep(pf, i);
      var full;
      out, full := AddFile(out, Flatten(pf[..i]), files[i], perFileCap, maxIndex, maxStrLen);
      if full {
        // break 2: the index is full
        BuildStopped(files, perFileCap, maxIndex, maxStrLen, i, out);
        return;
      }
      i := i + 1;
    }
    FlattenWhole(pf);
    BuildUnderCap(files, perFileCap, maxIndex, maxStrLen);
  }

  /** One pass of the file loop: the guards, then the rows of an accepted file. */
  method AddFile(out0: seq<Doc>, ghost before: seq<Entry>, f: SourceFile, perFileCap: int, maxIndex: int, maxStrLen: nat)
    returns (out: seq<Doc>, full: bool)
    requires out0 == Number(before) && |out0| < Cap(maxIndex)
    ensures var all := before + FileRows(f, perFileCap, maxStrLen);
      && (!full ==> out == Number(all) && |out| < Cap(maxIndex))
      && (full ==> Cap(maxIndex) <= |all| && out == Number(all[..Cap(maxIndex)]))
  {
    if !Accepted(f) {
      assert before + FileRows(f, perFileCap, maxStrLen) == before;
      return out0, false;
    }
    var texts, path, pageTitle := IndexFile(f, perFileCap, maxStrLen);
    out, full := AppendRows(out0, before, texts, path, pageTitle, maxIndex);
  }

  /**
    The row loop of build_source_index for one file: one numbered record per
    text until the index holds `max_index` records; `full` says the file loop
    is left as well.
   */
  method AppendRows(out0: seq<Doc>, ghost before: seq<Entry>, texts: seq<string>, path: string, pageTitle: string, maxIndex: int)
    returns (out: seq<Doc>, full: bool)
    requires out0 == Number(before) && |out0| < Cap(maxIndex)
    ensures var all := before + Rows(texts, path, pageTitle);
      && (!full ==> out == Number(all) && |out| < Cap(maxIndex))
      && (full ==> Cap(maxIndex) <= |all| && out == Number(all[..Cap(maxIndex)]))
  {
    ghost var rows := before;
    out := out0;
    RowsEmpty(before, texts, path, pageTitle);
    var j := 0;
    while j < |texts|
      invariant 0 <= j <= |texts|
      invariant rows == before + Rows(texts[..j], path, pageTitle)
      invariant out == Number(rows)
      invariant |out| < Cap(maxIndex)
    {
      ghost var e := Entry(texts[j], path, pageTitle);
      RowsStep(before, texts, j, path, pageTitle);
      NumberSnoc(rows, e);
      rows := rows + [e];
      out := out + [Doc(|out| + 1, texts[j], path, Some(pageTitle))];
      if |out| >= maxIndex {
        RowsSnoc(texts, j, path, pageTitle);
        RowsTake(before, texts, j + 1, path, pageTitle);
        full := true;
        return;
      }
      j := j + 1;
    }
    RowsWhole(texts, path, pageTitle);
    full := false;
  }

  /** No record of the index has a path on the denylist. */
  lemma BuildNotSkipped(files: seq<SourceFile>, perFileCap: int, maxIndex: int, maxStrLen: nat)
    ensures var r := BuildSpec(files, perFileCap, maxIndex, maxStrLen);
      forall k :: 0 <= k < |r| ==> !ShouldSkipPath(r[k].path)
  {
    var pf := PerFile(files, perFileCap, maxStrLen);
    var all := Entries(files, perFileCap, maxStrLen);
    var r := BuildSpec(files, perFileCap, maxIndex, maxStrLen);
    forall k | 0 <= k < |r| ensures !ShouldSkipPath(r[k].path) {
      assert r[k].path == all[k].path;
      FlattenMember(pf, k);
      var i, j :| 0 <= i < |pf| && 0 <= j < |pf[i]| && all[k] == pf[i][j];
      assert Accepted(files[i]);
      WebPathNotSkipped(files[i].fp);
    }
  }

  /** A rejected file adds nothing to the index. */
  lemma BuildRejected(files: seq<SourceFile>, f: SourceFile, perFileCap: int, maxIndex: int, maxStrLen: nat)
    requires !Accepted(f)
    ensures BuildSpec(files + [f], perFileCap, maxIndex, maxStrLen) == BuildSpec(files, perFileCap, maxIndex, maxStrLen)
  {
    PerFileSnoc(files, f, perFileCap, maxStrLen);
  }

  /**
    An accepted file from which no text was extracted, reached before the
    cap, adds exactly one record: its prettified filename, at the next id.
   */
  lemma BuildFallback(files: seq<SourceFile>, f: SourceFile, perFileCap: int, maxIndex: int, maxStrLen: nat)
    requires Accepted(f) && Extracted(f.mined.snippets, perFileCap, maxStrLen) == []
    requires |Entries(files, perFileCap, maxStrLen)| < Cap(maxIndex)
    ensures var before := BuildSpec(files, perFileCap, maxIndex, maxStrLen);
      BuildSpec(files + [f], perFileCap, maxIndex, maxStrLen) ==
        before + [Doc(|before| + 1, PrettifyFilename(Basename(f.fp)), WebPath(f.fp), Some(DerivePageTitle(f.mined, Basename(f.fp))))]
  {
    var e := Entries(files, perFileCap, maxStrLen);
    var row := Entry(PrettifyFilename(Basename(f.fp)), WebPath(f.fp), DerivePageTitle(f.mined, Basename(f.fp)));
    PerFileSnoc(files, f, perFileCap, maxStrLen);
    var r := FileRows(f, perFileCap, maxStrLen);
    assert |r| == 1 && r[0].title == row.title && r[0].path == row.path && r[0].page == row.page;
    Singleton(r, row);
    BuildUnderCap(files, perFileCap, maxIndex, maxStrLen);
    BuildUnderCap(files + [f], perFileCap, maxIndex, maxStrLen);
    NumberSnoc(e, row);
  }
}
