/**
  The ranking stage of the search endpoint (diag_quicksearch.php): query
  normalisation, the split of the query into words, the token-boundary test
  that token_regex builds, score_item in integer tenths, and search_ranked
  (filter, score, sort, one result per path, cap, renumber).
 */
module Search {
  import opened Wrappers
  import opened Text
  import opened Seqs
  import opened ServerText
  import opened SourceIndex

  // ---------------------------------------------------------------------
  // norm
  // ---------------------------------------------------------------------

  /** norm(): runs of `\s` become one space, PHP trim(), then lower case (entity decoding left out). */
  function Norm(s: string): string
  {
    Lower(Clean(s))
  }

  lemma LowerSqueezed(t: string)
    requires Squeezed(t)
    ensures Squeezed(Lower(t))
  {
    var r := Lower(t);
    forall k | 0 <= k < |t| ensures (r[k] == ' ' <==> t[k] == ' ') && (IsSpace(r[k]) ==> r[k] == ' ') {
      SqueezedAt(t, k);
    }
    SqueezedLike(t, r);
  }

  /**
    A normalised string has no whitespace but single spaces, no trim()
    character at either end and no upper-case letter; normalising it again
    changes nothing.
   */
  lemma NormSpec(s: string)
    ensures var r := Norm(s);
      && Squeezed(r)
      && (r == [] || (r[0] !in PhpTrimChars && r[|r| - 1] !in PhpTrimChars))
      && (forall i :: 0 <= i < |r| ==> !('A' <= r[i] <= 'Z'))
    ensures Norm(Norm(s)) == Norm(s)
  {
    var t := Clean(s);
    var r := Norm(s);
    CleanSpec(s);
    LowerSqueezed(t);
    if r != [] {
      assert r[0] == LowerChar(t[0]) && r[|r| - 1] == LowerChar(t[|t| - 1]);
    }
    CleanFixed(r);
    LowerIdempotent(t);
  }

  // ---------------------------------------------------------------------
  // array_values(array_filter(preg_split('/\s+/u', $qnorm)))
  // ---------------------------------------------------------------------

  /** Index of the first `\s` character, or |s| when there is none. */
  function SpaceIndex(s: string): (i: nat)
    ensures i <= |s| && (i < |s| ==> IsSpace(s[i]))
    ensures forall k :: 0 <= k < i ==> !IsSpace(s[k])
  {
    if s == [] || IsSpace(s[0]) then 0 else 1 + SpaceIndex(s[1..])
  }

  /** preg_split('/\s+/u', s): the pieces between runs of whitespace, including empty pieces at the ends. */
  function SplitWs(s: string): (r: seq<string>)
    ensures r != []
    decreases |s|
  {
    var i := SpaceIndex(s);
    if i == |s| then [s] else [s[..i]] + SplitWs(DropSpaces(s[i + 1..]))
  }

  /** array_filter on strings: PHP drops the falsy values "" and "0". */
  function Truthy(xs: seq<string>): (r: seq<string>)
    ensures forall i :: 0 <= i < |r| ==> r[i] != [] && r[i] != "0"
  {
    if xs == [] then []
    else
      var p := Truthy(xs[..|xs| - 1]);
      var w := xs[|xs| - 1];
      if w != [] && w != "0" then p + [w] else p
  }

  function Words(qnorm: string): seq<string>
  {
    Truthy(SplitWs(qnorm))
  }

  lemma {:induction false} TruthyMembers(xs: seq<string>, w: string)
    ensures w in Truthy(xs) <==> w in xs && w != [] && w != "0"
  {
    if xs != [] {
      var p := xs[..|xs| - 1];
      TruthyMembers(p, w);
      assert xs == p + [xs[|xs| - 1]];
    }
  }

  /** One step of the split: the piece before the first whitespace, then the split of what follows the run. */
  lemma SplitStep(s: string)
    requires SpaceIndex(s) < |s|
    ensures var i := SpaceIndex(s); SplitWs(s) == [s[..i]] + SplitWs(DropSpaces(s[i + 1..]))
  {
  }

  /** Every piece of the split is free of whitespace. */
  lemma {:induction false} SplitPiecesSpaceFree(s: string, p: string)
    requires p in SplitWs(s)
    ensures forall k :: 0 <= k < |p| ==> !IsSpace(p[k])
    decreases |s|
  {
    var i := SpaceIndex(s);
    if i == |s| {
      assert p == s;
    } else {
      SplitStep(s);
      if p == s[..i] {
        assert forall k :: 0 <= k < |p| ==> p[k] == s[k];
      } else {
        SplitPiecesSpaceFree(DropSpaces(s[i + 1..]), p);
      }
    }
  }

  /** What occurs after the first whitespace run occurs in the string. */
  lemma ContainedAfterRun(s: string, p: string)
    requires SpaceIndex(s) < |s|
    requires Contains(DropSpaces(s[SpaceIndex(s) + 1..]), p)
    ensures Contains(s, p)
  {
    var t := s[SpaceIndex(s) + 1..];
    ContainsSuffix(t, |t| - |DropSpaces(t)|, p);
    ContainsSuffix(s, SpaceIndex(s) + 1, p);
  }

  /** Every piece of the split occurs in the string. */
  lemma {:induction false} SplitPiecesContained(s: string, p: string)
    requires p in SplitWs(s)
    ensures Contains(s, p)
    decreases |s|
  {
    var i := SpaceIndex(s);
    if i == |s| {
      assert s[0..|s|] == s;
      ContainsWitness(s, s, 0);
    } else {
      SplitStep(s);
      if p == s[..i] {
        assert s[0..i] == p;
        ContainsWitness(s, p, 0);
      } else {
        SplitPiecesContained(DropSpaces(s[i + 1..]), p);
        ContainedAfterRun(s, p);
      }
    }
  }

  /** Splitting a squeezed string and joining the pieces with single spaces gives it back. */
  lemma {:induction false} SplitJoin(s: string)
    requires Squeezed(s)
    ensures Join(SplitWs(s), " ") == s
    decreases |s|
  {
    var i := SpaceIndex(s);
    if i < |s| {
      SqueezedAt(s, i);
      var t := s[i + 1..];
      if i + 1 < |s| {
        SqueezedAt(s, i + 1);
        assert t[0] == s[i + 1];
      }
      assert DropSpaces(t) == t;
      SqueezedDrop(s, i + 1);
      SplitJoin(t);
      JoinCons(s[..i], SplitWs(t), " ");
      SplitAround(s, i);
    }
  }

  /** The query words are non-empty, not "0", free of whitespace, and each occurs in the query. */
  lemma WordsSpec(qnorm: string, w: string)
    ensures w in Words(qnorm) <==> w in SplitWs(qnorm) && w != [] && w != "0"
    ensures w in Words(qnorm) ==> (forall k :: 0 <= k < |w| ==> !IsSpace(w[k])) && Contains(qnorm, w)
  {
    TruthyMembers(SplitWs(qnorm), w);
    if w in Words(qnorm) {
      SplitPiecesSpaceFree(qnorm, w);
      SplitPiecesContained(qnorm, w);
    }
  }

  // ---------------------------------------------------------------------
  // token_regex: /(?<![\pL\pN])WORD(?![\pL\pN])/ui
  // ---------------------------------------------------------------------

  /** `w` occurs at `i` with neither a letter nor a digit right before or right after it. */
  predicate TokenAt(text: string, w: string, i: nat)
  {
    && i + |w| <= |text| && text[i..i + |w|] == w
    && (i == 0 || !IsAlnum(text[i - 1]))
    && (i + |w| == |text| || !IsAlnum(text[i + |w|]))
  }

  /** A boundary match starting at `i` or later. */
  predicate TokenFrom(text: string, w: string, i: nat)
    decreases |text| - i
  {
    i + |w| <= |text| && (TokenAt(text, w, i) || TokenFrom(text, w, i + 1))
  }

  /** preg_match(token_regex(w), text), on a text and a word that are already lower case. */
  predicate TokenMatch(text: string, w: string)
  {
    TokenFrom(text, w, 0)
  }

  lemma {:induction false} TokenFromSpec(text: string, w: string, i: nat)
    ensures TokenFrom(text, w, i) <==> exists j :: i <= j && TokenAt(text, w, j)
    decreases |text| - i
  {
    if i + |w| <= |text| {
      TokenFromSpec(text, w, i + 1);
      if exists j :: i <= j && TokenAt(text, w, j) {
        var j :| i <= j && TokenAt(text, w, j);
        assert j == i || (i + 1 <= j && TokenAt(text, w, j));
      }
    }
  }

  /** The scan finds a boundary match exactly when there is one. */
  lemma TokenMatchSpec(text: string, w: string)
    ensures TokenMatch(text, w) <==> exists j :: TokenAt(text, w, j)
  {
    TokenFromSpec(text, w, 0);
  }

  /** A boundary match is a substring match. */
  lemma TokenContains(text: string, w: string)
    requires TokenMatch(text, w)
    ensures Contains(text, w)
  {
    TokenMatchSpec(text, w);
    var j :| TokenAt(text, w, j);
    ContainsWitness(text, w, j);
  }

  // ---------------------------------------------------------------------
  // score_item in tenths
  // ---------------------------------------------------------------------

  /** 1.0, 0.4, 0.1 and 0.6 as integer tenths. */
  const TokenHit: int := 10
  const SubstrHit: int := 4
  const PathHit: int := 1
  const PhraseBonus: int := 6

  /** What one query word adds to `$hits`. */
  function WordHit(text: string, path: string, w: string): int
  {
    (if TokenMatch(text, w) then TokenHit else if Contains(text, w) then SubstrHit else 0)
    + (if w != [] && Contains(path, w) then PathHit else 0)
  }

  /** `$hits` after the loop over `words`. */
  function Hits(words: seq<string>, text: string, path: string): int
  {
    if words == [] then 0
    else Hits(words[..|words| - 1], text, path) + WordHit(text, path, words[|words| - 1])
  }

  /** score_item: 0 for an empty normalised title or no hit, otherwise the hits plus the whole-query bonus. */
  function ScoreOf(it: Doc, words: seq<string>, qnorm: string): int
  {
    var text := Norm(it.title);
    var h := Hits(words, text, Norm(it.path));
    if text == [] || h <= 0 then 0
    else h + (if TokenMatch(text, qnorm) then PhraseBonus else 0)
  }

  /** A word adds 0 to 11 tenths, and something exactly when it occurs in the title or (non-empty) in the path. */
  lemma WordHitSpec(text: string, path: string, w: string)
    ensures 0 <= WordHit(text, path, w) <= TokenHit + PathHit
    ensures WordHit(text, path, w) > 0 <==> Contains(text, w) || (w != [] && Contains(path, w))
    ensures TokenMatch(text, w) ==> WordHit(text, path, w) >= TokenHit
  {
    if TokenMatch(text, w) {
      TokenContains(text, w);
    }
  }

  lemma {:induction false} HitsSpec(words: seq<string>, text: string, path: string)
    ensures 0 <= Hits(words, text, path) <= (TokenHit + PathHit) * |words|
    ensures Hits(words, text, path) > 0 <==> exists i :: 0 <= i < |words| && WordHit(text, path, words[i]) > 0
  {
    if words != [] {
      var p := words[..|words| - 1];
      var w := words[|words| - 1];
      HitsSpec(p, text, path);
      WordHitSpec(text, path, w);
      if exists i :: 0 <= i < |p| && WordHit(text, path, p[i]) > 0 {
        var i :| 0 <= i < |p| && WordHit(text, path, p[i]) > 0;
        assert words[i] == p[i];
      }
      if exists i :: 0 <= i < |words| && WordHit(text, path, words[i]) > 0 {
        var i :| 0 <= i < |words| && WordHit(text, path, words[i]) > 0;
        if i < |p| {
          assert p[i] == words[i];
        }
      }
    }
  }

  /**
    The score is positive exactly when the normalised title is not empty and
    some word occurs in it or, when non-empty, in the normalised path; it is
    at most 11 tenths per word plus the 6 of the whole-query match.
   */
  lemma ScoreSpec(it: Doc, words: seq<string>, qnorm: string)
    ensures var text := Norm(it.title); var path := Norm(it.path);
      ScoreOf(it, words, qnorm) > 0 <==>
        text != [] && exists i :: 0 <= i < |words| && (Contains(text, words[i]) || (words[i] != [] && Contains(path, words[i])))
    ensures 0 <= ScoreOf(it, words, qnorm) <= (TokenHit + PathHit) * |words| + PhraseBonus
    ensures Norm(it.title) == [] ==> ScoreOf(it, words, qnorm) == 0
  {
    var text := Norm(it.title);
    var path := Norm(it.path);
    HitsSpec(words, text, path);
    forall i | 0 <= i < |words|
      ensures WordHit(text, path, words[i]) > 0 <==> Contains(text, words[i]) || (words[i] != [] && Contains(path, words[i]))
    {
      WordHitSpec(text, path, words[i]);
    }
  }

  /** score_item's loop over the words. */
  method ScoreItem(it: Doc, words: seq<string>, qnorm: string) returns (score: int)
    ensures score == ScoreOf(it, words, qnorm)
  {
    var text := Norm(it.title);
    var path := Norm(it.path);
    if text == [] {
      return 0;
    }
    var hits := 0;
    for i := 0 to |words|
      invariant hits == Hits(words[..i], text, path)
    {
      assert words[..i + 1][..i] == words[..i];
      var w := words[i];
      if TokenMatch(text, w) {
        hits := hits + TokenHit;
      } else if Contains(text, w) {
        hits := hits + SubstrHit;
      }
      if w != [] && Contains(path, w) {
        hits := hits + PathHit;
      }
    }
    assert words[..|words|] == words;
    if hits <= 0 {
      return 0;
    }
    score := hits;
    if TokenMatch(text, qnorm) {
      score := score + PhraseBonus;
    }
  }

  // ---------------------------------------------------------------------
  // search_ranked
  // ---------------------------------------------------------------------

  /** A record with its `_score`. */
  datatype Cand = Cand(doc: Doc, score: int)

  /** The records off the denylist whose score is positive, with that score, in index order. */
  function Filtered(docs: seq<Doc>, score: Doc -> int): seq<Cand>
  {
    if docs == [] then []
    else
      var p := Filtered(docs[..|docs| - 1], score);
      var it := docs[|docs| - 1];
      if !ShouldSkipPath(it.path) && score(it) > 0 then p + [Cand(it, score(it))] else p
  }

  lemma {:induction false} FilteredSpec(docs: seq<Doc>, score: Doc -> int, c: Cand)
    ensures c in Filtered(docs, score) <==>
      c.doc in docs && !ShouldSkipPath(c.doc.path) && c.score == score(c.doc) && c.score > 0
  {
    if docs != [] {
      var p := docs[..|docs| - 1];
      FilteredSpec(p, score, c);
      assert docs == p + [docs[|docs| - 1]];
    }
  }

  /** The candidate loop of search_ranked. */
  function Candidates(docs: seq<Doc>, words: seq<string>, qnorm: string): seq<Cand>
  {
    Filtered(docs, d => ScoreOf(d, words, qnorm))
  }

  /** The candidates are exactly the scored records off the denylist whose score is positive. */
  lemma CandidatesSpec(docs: seq<Doc>, words: seq<string>, qnorm: string, c: Cand)
    ensures c in Candidates(docs, words, qnorm) <==>
      c.doc in docs && !ShouldSkipPath(c.doc.path) && c.score == ScoreOf(c.doc, words, qnorm) && c.score > 0
  {
    FilteredSpec(docs, d => ScoreOf(d, words, qnorm), c);
  }

  method CollectCandidates(docs: seq<Doc>, words: seq<string>, qnorm: string) returns (cands: seq<Cand>)
    ensures cands == Candidates(docs, words, qnorm)
  {
    cands := [];
    for i := 0 to |docs|
      invariant cands == Candidates(docs[..i], words, qnorm)
    {
      assert docs[..i + 1][..i] == docs[..i];
      var it := docs[i];
      if ShouldSkipPath(it.path) {
        continue;
      }
      var s := ScoreItem(it, words, qnorm);
      if s > 0 {
        cands := cands + [Cand(it, s)];
      }
    }
    assert docs[..|docs|] == docs;
  }

  /** The usort comparator as "may come first": higher score first, equal scores by strcmp on the title. */
  predicate CandLe(a: Cand, b: Cand)
  {
    a.score > b.score || (a.score == b.score && StrLe(a.doc.title, b.doc.title))
  }

  lemma CandLeTotalPreorder()
    ensures TotalPreorder(CandLe)
  {
    forall a: Cand, b: Cand ensures CandLe(a, b) || CandLe(b, a) {
      StrLeTotal(a.doc.title, b.doc.title);
    }
    forall a: Cand, b: Cand, c: Cand | CandLe(a, b) && CandLe(b, c) ensures CandLe(a, c) {
      if a.score == b.score && b.score == c.score {
        StrLeTrans(a.doc.title, b.doc.title, c.doc.title);
      }
    }
  }

  /** One search result; the source stores the same name under title, label, name, text and display. */
  datatype Item = Item(id: int, name: string, path: string)

  /** `$it['page'] ?? prettify_filename(basename($path))` */
  function NameOf(d: Doc): string
  {
    if d.page.Some? then d.page.value else PrettifyFilename(Basename(d.path))
  }

  function PathsOf(cs: seq<Cand>): set<string>
  {
    set c | c in cs :: c.doc.path
  }

  /** The `$seenPath` pass without the limit: the first candidate of every non-empty path, in order. */
  function FirstByPath(cs: seq<Cand>): seq<Cand>
  {
    if cs == [] then []
    else
      var p := FirstByPath(cs[..|cs| - 1]);
      var c := cs[|cs| - 1];
      if c.doc.path == [] || c.doc.path in PathsOf(p) then p else p + [c]
  }

  /** Results numbered from 1. */
  function Present(cs: seq<Cand>): (r: seq<Item>)
    ensures |r| == |cs|
    ensures forall k :: 0 <= k < |r| ==> r[k] == Item(k + 1, NameOf(cs[k].doc), cs[k].doc.path)
  {
    seq(|cs|, k requires 0 <= k < |cs| => Item(k + 1, NameOf(cs[k].doc), cs[k].doc.path))
  }

  /** `$limit` as a count: the test after the append lets one result out even for a limit below one. */
  function Shown(n: nat, limit: int): (k: nat)
    ensures k <= n && k <= Cap(limit) && (k == n || k == Cap(limit))
  {
    if n <= Cap(limit) then n else Cap(limit)
  }

  /** The scored candidates after the stable usort. */
  function Ranked(docs: seq<Doc>, qnorm: string): seq<Cand>
  {
    Sort(Candidates(docs, Words(qnorm), qnorm), CandLe)
  }

  /** The `$seenPath` / `$out` loop: the first candidate of every path, capped at the limit and numbered. */
  function Results(ranked: seq<Cand>, limit: int): seq<Item>
  {
    var picked := FirstByPath(ranked);
    Present(picked[..Shown(|picked|, limit)])
  }

  /** search_ranked(docs, q, limit). */
  function SearchSpec(docs: seq<Doc>, q: string, limit: int): seq<Item>
  {
    var qnorm := Norm(q);
    if qnorm == [] then [] else Results(Ranked(docs, qnorm), limit)
  }

  // Properties of the path pass

  lemma {:induction false} FirstByPathFrom(cs: seq<Cand>, c: Cand)
    requires c in FirstByPath(cs)
    ensures c in cs
  {
    var p := cs[..|cs| - 1];
    if c in FirstByPath(p) {
      FirstByPathFrom(p, c);
      assert forall x :: x in p ==> x in cs;
    }
  }

  /** Every non-empty path of the input is the path of some kept candidate. */
  lemma {:induction false} FirstByPathComplete(cs: seq<Cand>, j: nat)
    requires j < |cs| && cs[j].doc.path != []
    ensures cs[j].doc.path in PathsOf(FirstByPath(cs))
  {
    var p := cs[..|cs| - 1];
    var q := FirstByPath(p);
    if j < |p| {
      assert p[j] == cs[j];
      FirstByPathComplete(p, j);
      var c :| c in q && c.doc.path == cs[j].doc.path;
      assert c in FirstByPath(cs);
    } else if cs[j].doc.path !in PathsOf(q) {
      assert cs[j] in FirstByPath(cs);
    }
  }

  /** The kept paths are non-empty and pairwise distinct. */
  lemma {:induction false} FirstByPathDistinct(cs: seq<Cand>)
    ensures forall k :: 0 <= k < |FirstByPath(cs)| ==> FirstByPath(cs)[k].doc.path != []
    ensures forall k, l :: 0 <= k < l < |FirstByPath(cs)| ==> FirstByPath(cs)[k].doc.path != FirstByPath(cs)[l].doc.path
  {
    if cs != [] {
      var p := cs[..|cs| - 1];
      var q := FirstByPath(p);
      FirstByPathDistinct(p);
      var c := cs[|cs| - 1];
      if c.doc.path == [] || c.doc.path in PathsOf(q) {
        assert FirstByPath(cs) == q;
      } else {
        var r := q + [c];
        assert FirstByPath(cs) == r;
        forall k | 0 <= k < |q| ensures q[k].doc.path != c.doc.path {
          assert q[k] in q;
        }
        forall k, l | 0 <= k < l < |r| ensures r[k].doc.path != r[l].doc.path {
          if l < |q| {
            assert r[k] == q[k] && r[l] == q[l];
          } else {
            assert r[k] == q[k] && r[l] == c;
          }
        }
      }
    }
  }

  /** Each kept candidate is the first candidate of the input with its path. */
  lemma {:induction false} FirstByPathFirst(cs: seq<Cand>, k: nat)
    requires k < |FirstByPath(cs)|
    ensures exists j :: (0 <= j < |cs| && cs[j] == FirstByPath(cs)[k]
      && forall i :: 0 <= i < j ==> cs[i].doc.path != cs[j].doc.path)
  {
    var p := cs[..|cs| - 1];
    var q := FirstByPath(p);
    var r := FirstByPath(cs);
    if k < |q| {
      assert r[k] == q[k];
      FirstByPathFirst(p, k);
      var j :| 0 <= j < |p| && p[j] == q[k] && forall i :: 0 <= i < j ==> p[i].doc.path != p[j].doc.path;
      assert cs[j] == p[j];
      assert forall i :: 0 <= i < j ==> cs[i] == p[i];
    } else {
      var c := cs[|cs| - 1];
      assert r == q + [c] && r[k] == c;
      forall i | 0 <= i < |cs| - 1 ensures cs[i].doc.path != c.doc.path {
        assert cs[i] == p[i];
        if p[i].doc.path != [] {
          FirstByPathComplete(p, i);
        }
      }
    }
  }

  /** The pass keeps the order of its input. */
  lemma {:induction false} FirstByPathSorted(cs: seq<Cand>, le: (Cand, Cand) -> bool)
    requires SortedBy(cs, le)
    ensures SortedBy(FirstByPath(cs), le)
  {
    if cs != [] {
      var p := cs[..|cs| - 1];
      var q := FirstByPath(p);
      var c := cs[|cs| - 1];
      assert SortedBy(p, le) by {
        forall i, j | 0 <= i < j < |p| ensures le(p[i], p[j]) {
          assert p[i] == cs[i] && p[j] == cs[j];
        }
      }
      FirstByPathSorted(p, le);
      if !(c.doc.path == [] || c.doc.path in PathsOf(q)) {
        var r := q + [c];
        forall i, j | 0 <= i < j < |r| ensures le(r[i], r[j]) {
          if j == |q| {
            assert q[i] in q;
            FirstByPathFrom(p, q[i]);
            var m :| 0 <= m < |p| && p[m] == q[i];
            assert cs[m] == q[i];
          } else {
            assert r[i] == q[i] && r[j] == q[j];
          }
        }
      }
    }
  }

  /** The pass over a prefix keeps a prefix of what the whole pass keeps. */
  lemma {:induction false} FirstByPathPrefix(cs: seq<Cand>, n: nat)
    requires n <= |cs|
    ensures |FirstByPath(cs[..n])| <= |FirstByPath(cs)|
    ensures FirstByPath(cs)[..|FirstByPath(cs[..n])|] == FirstByPath(cs[..n])
    decreases |cs| - n
  {
    if n < |cs| {
      var p := cs[..|cs| - 1];
      assert p[..n] == cs[..n];
      FirstByPathPrefix(p, n);
    } else {
      assert cs[..n] == cs;
    }
  }

  // The search as the source computes it

  lemma PresentSnoc(cs: seq<Cand>, c: Cand)
    ensures Present(cs + [c]) == Present(cs) + [Item(|cs| + 1, NameOf(c.doc), c.doc.path)]
  {
  }

  lemma PathsOfSnoc(cs: seq<Cand>, c: Cand)
    ensures PathsOf(cs + [c]) == PathsOf(cs) + {c.doc.path}
  {
    assert forall x :: x in cs + [c] <==> x in cs || x == c;
  }

  lemma FirstByPathStep(cs: seq<Cand>, i: nat)
    requires i < |cs|
    ensures var q := FirstByPath(cs[..i]); var c := cs[i];
      FirstByPath(cs[..i + 1]) == if c.doc.path == [] || c.doc.path in PathsOf(q) then q else q + [c]
  {
    assert cs[..i + 1][..i] == cs[..i];
  }

  /** Leaving the loop at the limit having passed candidate `i` yields the capped result. */
  lemma PickStopped(ranked: seq<Cand>, i: nat, limit: int, out: seq<Item>)
    requires i < |ranked|
    requires |FirstByPath(ranked[..i + 1])| == Cap(limit)
    requires out == Present(FirstByPath(ranked[..i + 1]))
    ensures out == Results(ranked, limit)
  {
    var picked := FirstByPath(ranked);
    FirstByPathPrefix(ranked, i + 1);
    assert picked[..Shown(|picked|, limit)] == FirstByPath(ranked[..i + 1]);
  }

  /** The loop's state after candidate `i - 1`: the kept candidates, their paths and the numbered results. */
  predicate Picked(ranked: seq<Cand>, i: nat, kept: seq<Cand>, seen: set<string>, out: seq<Item>)
    requires i <= |ranked|
  {
    kept == FirstByPath(ranked[..i]) && seen == PathsOf(kept) && out == Present(kept)
  }

  lemma PickSkip(ranked: seq<Cand>, i: nat, kept: seq<Cand>, seen: set<string>, out: seq<Item>)
    requires i < |ranked| && Picked(ranked, i, kept, seen, out)
    requires ranked[i].doc.path == [] || ranked[i].doc.path in seen
    ensures Picked(ranked, i + 1, kept, seen, out)
  {
    FirstByPathStep(ranked, i);
  }

  lemma PickKeep(ranked: seq<Cand>, i: nat, kept: seq<Cand>, seen: set<string>, out: seq<Item>)
    requires i < |ranked| && Picked(ranked, i, kept, seen, out)
    requires ranked[i].doc.path != [] && ranked[i].doc.path !in seen
    ensures var c := ranked[i];
      Picked(ranked, i + 1, kept + [c], seen + {c.doc.path}, out + [Item(|out| + 1, NameOf(c.doc), c.doc.path)])
  {
    FirstByPathStep(ranked, i);
    PathsOfSnoc(kept, ranked[i]);
    PresentSnoc(kept, ranked[i]);
  }

  /** The `$seenPath` / `$out` loop with its `break` at the limit. */
  method PickByPath(ranked: seq<Cand>, limit: int) returns (out: seq<Item>)
    ensures out == Results(ranked, limit)
  {
    var seen: set<string> := {};
    out := [];
    ghost var kept: seq<Cand> := [];
    for i := 0 to |ranked|
      invariant Picked(ranked, i, kept, seen, out)
      invariant |out| < Cap(limit)
    {
      var it := ranked[i];
      var path := it.doc.path;
      if path == [] || path in seen {
        PickSkip(ranked, i, kept, seen, out);
        continue;
      }
      PickKeep(ranked, i, kept, seen, out);
      seen := seen + {path};
      kept := kept + [it];
      out := out + [Item(|out| + 1, NameOf(it.doc), path)];
      if |out| >= limit {
        PickStopped(ranked, i, limit, out);
        return;
      }
    }
    assert ranked[..|ranked|] == ranked;
  }

  /** search_ranked: normalise, split, score and filter, sort, then one result per path. */
  method SearchRanked(docs: seq<Doc>, q: string, limit: int) returns (out: seq<Item>)
    ensures out == SearchSpec(docs, q, limit)
  {
    var qnorm := Norm(q);
    if qnorm == [] {
      return [];
    }
    var words := Words(qnorm);
    var cands := CollectCandidates(docs, words, qnorm);
    if cands == [] {
      return [];
    }
    var ranked := Sort(cands, CandLe);
    out := PickByPath(ranked, limit);
  }

  // Properties of the capped path pass

  /** At most Cap(limit) results, none without candidates, numbered from 1, with non-empty, pairwise distinct paths. */
  lemma ResultsShape(ranked: seq<Cand>, limit: int)
    ensures |Results(ranked, limit)| <= Cap(limit)
    ensures ranked == [] ==> Results(ranked, limit) == []
    ensures forall k :: 0 <= k < |Results(ranked, limit)| ==>
      Results(ranked, limit)[k].id == k + 1 && Results(ranked, limit)[k].path != []
    ensures forall k, l :: 0 <= k < l < |Results(ranked, limit)| ==>
      Results(ranked, limit)[k].path != Results(ranked, limit)[l].path
  {
    var picked := FirstByPath(ranked);
    var n := Shown(|picked|, limit);
    FirstByPathDistinct(ranked);
    assert forall k :: 0 <= k < n ==> Results(ranked, limit)[k].path == picked[k].doc.path;
  }

  /** Result `k` comes from the first ranked candidate with its path. */
  lemma ResultsFirst(ranked: seq<Cand>, limit: int, k: nat)
    requires k < |Results(ranked, limit)|
    ensures exists j :: (0 <= j < |ranked|
      && Results(ranked, limit)[k] == Item(k + 1, NameOf(ranked[j].doc), ranked[j].doc.path)
      && forall i :: 0 <= i < j ==> ranked[i].doc.path != ranked[j].doc.path)
  {
    var picked := FirstByPath(ranked);
    FirstByPathFirst(ranked, k);
    var j :| 0 <= j < |ranked| && ranked[j] == picked[k]
      && forall i :: 0 <= i < j ==> ranked[i].doc.path != ranked[j].doc.path;
    assert picked[..Shown(|picked|, limit)][k] == ranked[j];
  }

  /** When the pass stays below the limit, every non-empty ranked path shows up among the results. */
  lemma ResultsComplete(ranked: seq<Cand>, limit: int, j: nat)
    requires |FirstByPath(ranked)| < Cap(limit)
    requires j < |ranked| && ranked[j].doc.path != []
    ensures exists k :: 0 <= k < |Results(ranked, limit)| && Results(ranked, limit)[k].path == ranked[j].doc.path
  {
    var picked := FirstByPath(ranked);
    FirstByPathComplete(ranked, j);
    var c :| c in picked && c.doc.path == ranked[j].doc.path;
    var k :| 0 <= k < |picked| && picked[k] == c;
    assert Results(ranked, limit)[k].path == c.doc.path;
  }

  // Properties of the search

  /**
    An empty query or no candidate gives no result; otherwise the results
    number at most Cap(limit), carry ids 1..n in order, and have non-empty,
    pairwise distinct paths, none of them on the denylist.
   */
  lemma SearchShape(docs: seq<Doc>, q: string, limit: int)
    ensures Norm(q) == [] ==> SearchSpec(docs, q, limit) == []
    ensures Candidates(docs, Words(Norm(q)), Norm(q)) == [] ==> SearchSpec(docs, q, limit) == []
    ensures |SearchSpec(docs, q, limit)| <= Cap(limit)
    ensures forall k :: 0 <= k < |SearchSpec(docs, q, limit)| ==> SearchSpec(docs, q, limit)[k].id == k + 1
    ensures forall k :: 0 <= k < |SearchSpec(docs, q, limit)| ==>
      SearchSpec(docs, q, limit)[k].path != [] && !ShouldSkipPath(SearchSpec(docs, q, limit)[k].path)
    ensures forall k, l :: 0 <= k < l < |SearchSpec(docs, q, limit)| ==>
      SearchSpec(docs, q, limit)[k].path != SearchSpec(docs, q, limit)[l].path
  {
    var qnorm := Norm(q);
    if qnorm != [] {
      var cands := Candidates(docs, Words(qnorm), qnorm);
      var ranked := Ranked(docs, qnorm);
      var r := Results(ranked, limit);
      assert SearchSpec(docs, q, limit) == r;
      ResultsShape(ranked, limit);
      SortPerm(cands, CandLe);
      forall k | 0 <= k < |r| ensures !ShouldSkipPath(r[k].path) {
        ResultsFirst(ranked, limit, k);
        var j :| 0 <= j < |ranked| && r[k] == Item(k + 1, NameOf(ranked[j].doc), ranked[j].doc.path);
        assert ranked[j] in multiset(ranked);
        CandidatesSpec(docs, Words(qnorm), qnorm, ranked[j]);
      }
      if cands == [] {
        assert ranked == [];
      }
    }
  }

  /** The ranked candidates are an ordered permutation of the candidates, and the path pass keeps that order. */
  lemma RankedSpec(docs: seq<Doc>, qnorm: string)
    ensures SortedBy(Ranked(docs, qnorm), CandLe)
    ensures multiset(Ranked(docs, qnorm)) == multiset(Candidates(docs, Words(qnorm), qnorm))
    ensures SortedBy(FirstByPath(Ranked(docs, qnorm)), CandLe)
  {
    CandLeTotalPreorder();
    SortSpec(Candidates(docs, Words(qnorm), qnorm), CandLe);
    FirstByPathSorted(Ranked(docs, qnorm), CandLe);
  }

  /**
    Each result is the first candidate in ranked order with its path, named
    by its page title or else its prettified basename.
   */
  lemma SearchFirstRanked(docs: seq<Doc>, q: string, limit: int, k: nat)
    requires k < |SearchSpec(docs, q, limit)|
    ensures exists j :: (0 <= j < |Ranked(docs, Norm(q))|
      && SearchSpec(docs, q, limit)[k] == Item(k + 1, NameOf(Ranked(docs, Norm(q))[j].doc), Ranked(docs, Norm(q))[j].doc.path)
      && forall i :: 0 <= i < j ==> Ranked(docs, Norm(q))[i].doc.path != Ranked(docs, Norm(q))[j].doc.path)
  {
    ResultsFirst(Ranked(docs, Norm(q)), limit, k);
  }

  /** Below the limit, every path of a candidate shows up among the results. */
  lemma SearchComplete(docs: seq<Doc>, q: string, limit: int, j: nat)
    requires Norm(q) != []
    requires |FirstByPath(Ranked(docs, Norm(q)))| < Cap(limit)
    requires j < |Ranked(docs, Norm(q))| && Ranked(docs, Norm(q))[j].doc.path != []
    ensures exists k :: 0 <= k < |SearchSpec(docs, q, limit)| && SearchSpec(docs, q, limit)[k].path == Ranked(docs, Norm(q))[j].doc.path
  {
    var ranked := Ranked(docs, Norm(q));
    assert SearchSpec(docs, q, limit) == Results(ranked, limit);
    ResultsComplete(ranked, limit, j);
  }
}
