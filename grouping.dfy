/**
  groupItems of quicksearch_inline.js: titles are split into " / "
  segments, records sharing a two-segment prefix (or else a first segment)
  with at least one other record are grouped under it, the rest are
  singles, and both lists are sorted.
 */
module Grouping {
  import opened Wrappers
  import opened Text
  import opened Seqs
  import opened ClientText

  /** The separator the titles are normalised to and split on. */
  const Sep: string := " / "

  // ---------------------------------------------------------------------
  // Title normalisation and segments
  // ---------------------------------------------------------------------

  // The first replace of groupItems: a ':' or '/' together with the \s runs around it becomes " / " (the pattern is \s* [:/] \s*, global).
  function SepNorm(s: string): string
    decreases |s|
  {
    if s == [] then []
    else
      var d := DropSpaces(s);
      if d != [] && (d[0] == ':' || d[0] == '/') then Sep + SepNorm(DropSpaces(d[1..]))
      else [s[0]] + SepNorm(s[1..])
  }

  /** `full`: the title with separators normalised, whitespace runs collapsed, trimmed. */
  function FullTitle(it: JsItem): string
  {
    Trim(Collapse(SepNorm(TitleFromItem(it))), Whitespace)
  }

  /** Index of the first " / " in `s`, or |s| when there is none. */
  function SepIndex(s: string): (i: nat)
    ensures i <= |s| && (i < |s| ==> At(s, i, Sep))
    ensures forall j :: 0 <= j < i ==> !At(s, j, Sep)
    decreases |s|
  {
    if |s| < |Sep| then |s|
    else if s[..|Sep|] == Sep then 0
    else
      var i := 1 + SepIndex(s[1..]);
      assert forall j :: 1 <= j < i ==> (At(s, j, Sep) <==> At(s[1..], j - 1, Sep)) by {
        forall j | 1 <= j < i ensures At(s, j, Sep) <==> At(s[1..], j - 1, Sep) {
          if j + |Sep| <= |s| {
            assert s[1..][j - 1..j - 1 + |Sep|] == s[j..j + |Sep|];
          }
        }
      }
      if i < |s| then
        assert s[1..][i - 1..i - 1 + |Sep|] == s[i..i + |Sep|];
        i
      else i
  }

  /** `s.split(' / ')` */
  function SplitSep(s: string): (r: seq<string>)
    ensures r != []
    decreases |s|
  {
    var i := SepIndex(s);
    if i == |s| then [s] else [s[..i]] + SplitSep(s[i + |Sep|..])
  }

  /** `.split(' / ').filter(Boolean)` */
  function Segments(full: string): seq<string>
  {
    DropEmpty(SplitSep(full))
  }

  /** A piece before the first separator holds no separator. */
  lemma NoSepBefore(s: string, i: nat)
    requires i <= |s| && forall j :: 0 <= j < i ==> !At(s, j, Sep)
    ensures forall j: nat :: !At(s[..i], j, Sep)
  {
    forall j: nat | At(s[..i], j, Sep) ensures false {
      assert s[..i][j..j + |Sep|] == s[j..j + |Sep|];
      assert j < i && At(s, j, Sep);
    }
  }

  lemma {:induction false} SplitSepPieces(s: string, p: string)
    requires p in SplitSep(s)
    ensures forall j: nat :: !At(p, j, Sep)
    decreases |s|
  {
    var i := SepIndex(s);
    if i == |s| {
      assert s[..i] == s;
      NoSepBefore(s, i);
    } else if p == s[..i] {
      NoSepBefore(s, i);
    } else {
      assert p in SplitSep(s[i + |Sep|..]);
      SplitSepPieces(s[i + |Sep|..], p);
    }
  }

  /** Segments are non-empty and contain no " / ". */
  lemma SegmentsSpec(full: string, p: string)
    requires p in Segments(full)
    ensures p != [] && forall j: nat :: !At(p, j, Sep)
  {
    DropEmptyMembers(SplitSep(full), p);
    SplitSepPieces(full, p);
  }

  // ---------------------------------------------------------------------
  // Records and the frequency counts
  // ---------------------------------------------------------------------

  /** `{ full, segs, path }` */
  datatype Rec = Rec(full: string, segs: seq<string>, path: string)

  function RecOf(it: JsItem): Rec
  {
    var full := FullTitle(it);
    Rec(full, Segments(full), Str(it.path))
  }

  /** `items.map(...)` */
  function Records(items: seq<JsItem>): (rs: seq<Rec>)
    ensures |rs| == |items|
  {
    seq(|items|, i requires 0 <= i < |items| => RecOf(items[i]))
  }

  /** The first segment, or "" when there is none. */
  function K1(r: Rec): string
  {
    if |r.segs| >= 1 then r.segs[0] else []
  }

  /** `segs.slice(0, 2).join(' / ')` when there are two segments, or "". */
  function K2(r: Rec): string
  {
    if |r.segs| >= 2 then r.segs[0] + Sep + r.segs[1] else []
  }

  /** `freq1[k]` after the first loop over `rs`. */
  function Count1(rs: seq<Rec>, k: string): nat
  {
    if rs == [] then 0
    else
      var r := rs[|rs| - 1];
      Count1(rs[..|rs| - 1], k) + if r.full != [] && |r.segs| >= 1 && K1(r) == k then 1 else 0
  }

  /** `freq2[k]` after the first loop over `rs`. */
  function Count2(rs: seq<Rec>, k: string): nat
  {
    if rs == [] then 0
    else
      var r := rs[|rs| - 1];
      Count2(rs[..|rs| - 1], k) + if r.full != [] && |r.segs| >= 2 && K2(r) == k then 1 else 0
  }

  /** `d[k] || 0` on a counting dictionary. */
  function Freq(m: map<string, int>, k: string): int
  {
    if k in m then m[k] else 0
  }

  /** The group key of `r` given the counts over all records: "" sends it to the singles. */
  function KeyOf(all: seq<Rec>, r: Rec): string
  {
    var k2 := K2(r);
    var k1 := K1(r);
    if k2 != [] && Count2(all, k2) >= 2 then k2
    else if k1 != [] && Count1(all, k1) >= 2 then k1
    else []
  }

  // ---------------------------------------------------------------------
  // Assignment to groups and singles
  // ---------------------------------------------------------------------

  /** `{ title: r.full, path: r.path }` */
  datatype Row = Row(title: string, path: string)

  function RowOf(r: Rec): Row
  {
    Row(r.full, r.path)
  }

  /** The rows the second loop pushes under key `k` (the singles for ""), in record order. */
  function Members(all: seq<Rec>, rs: seq<Rec>, k: string): seq<Row>
  {
    if rs == [] then []
    else
      var p := Members(all, rs[..|rs| - 1], k);
      var r := rs[|rs| - 1];
      if r.full != [] && KeyOf(all, r) == k then p + [RowOf(r)] else p
  }

  /** The keys in the order the second loop first puts them into `groupsMap`. */
  function Order(all: seq<Rec>, rs: seq<Rec>): seq<string>
  {
    if rs == [] then []
    else
      var p := Order(all, rs[..|rs| - 1]);
      var r := rs[|rs| - 1];
      var k := KeyOf(all, r);
      if r.full == [] || k == [] || k in p then p else p + [k]
  }

  datatype Group = Group(title: string, items: seq<Row>)

  /** `a.title.localeCompare(b.title) <= 0`, with localeCompare as code-point order. */
  predicate RowLe(a: Row, b: Row)
  {
    StrLe(a.title, b.title)
  }

  /** More items first, then localeCompare on the group title. */
  predicate GroupLe(a: Group, b: Group)
  {
    |a.items| > |b.items| || (|a.items| == |b.items| && StrLe(a.title, b.title))
  }

  /** The entries of `groupsMap` in insertion order, each with its items sorted. */
  function GroupsOf(all: seq<Rec>, keys: seq<string>): (gs: seq<Group>)
    ensures |gs| == |keys|
  {
    seq(|keys|, j requires 0 <= j < |keys| => Group(keys[j], Sort(Members(all, all, keys[j]), RowLe)))
  }

  datatype Grouped = Grouped(groups: seq<Group>, singles: seq<Row>)

  /** groupItems(items) */
  function GroupItemsSpec(items: seq<JsItem>): Grouped
  {
    var all := Records(items);
    Grouped(Sort(GroupsOf(all, Order(all, all)), GroupLe), Sort(Members(all, all, []), RowLe))
  }

  // ---------------------------------------------------------------------
  // The loops
  // ---------------------------------------------------------------------

  lemma Count1Step(rs: seq<Rec>, i: nat, k: string)
    requires i < |rs|
    ensures var r := rs[i];
      Count1(rs[..i + 1], k) == Count1(rs[..i], k) + if r.full != [] && |r.segs| >= 1 && K1(r) == k then 1 else 0
  {
    assert rs[..i + 1][..i] == rs[..i];
  }

  lemma Count2Step(rs: seq<Rec>, i: nat, k: string)
    requires i < |rs|
    ensures var r := rs[i];
      Count2(rs[..i + 1], k) == Count2(rs[..i], k) + if r.full != [] && |r.segs| >= 2 && K2(r) == k then 1 else 0
  {
    assert rs[..i + 1][..i] == rs[..i];
  }

  /** The first loop: `freq1` and `freq2`. */
  method CountFreqs(rec: seq<Rec>) returns (freq1: map<string, int>, freq2: map<string, int>)
    ensures forall k :: Freq(freq1, k) == Count1(rec, k)
    ensures forall k :: Freq(freq2, k) == Count2(rec, k)
  {
    freq1 := map[];
    freq2 := map[];
    for i := 0 to |rec|
      invariant forall k :: Freq(freq1, k) == Count1(rec[..i], k)
      invariant forall k :: Freq(freq2, k) == Count2(rec[..i], k)
    {
      forall k ensures Count1(rec[..i + 1], k) == Count1(rec[..i], k) + if rec[i].full != [] && |rec[i].segs| >= 1 && K1(rec[i]) == k then 1 else 0 {
        Count1Step(rec, i, k);
      }
      forall k ensures Count2(rec[..i + 1], k) == Count2(rec[..i], k) + if rec[i].full != [] && |rec[i].segs| >= 2 && K2(rec[i]) == k then 1 else 0 {
        Count2Step(rec, i, k);
      }
      var r := rec[i];
      if r.full == [] {
        continue;
      }
      if |r.segs| >= 1 {
        var k1 := r.segs[0];
        ghost var f1 := freq1;
        freq1 := freq1[k1 := Freq(freq1, k1) + 1];
        forall k ensures Freq(freq1, k) == if k == k1 then Freq(f1, k) + 1 else Freq(f1, k) { }
      }
      if |r.segs| >= 2 {
        var k2 := r.segs[0] + Sep + r.segs[1];
        assert k2 == K2(r);
        ghost var f2 := freq2;
        freq2 := freq2[k2 := Freq(freq2, k2) + 1];
        forall k ensures Freq(freq2, k) == if k == k2 then Freq(f2, k) + 1 else Freq(f2, k) { }
      }
    }
    assert rec[..|rec|] == rec;
  }

  lemma MembersStep(all: seq<Rec>, rs: seq<Rec>, i: nat, k: string)
    requires i < |rs|
    ensures var r := rs[i];
      Members(all, rs[..i + 1], k) == if r.full != [] && KeyOf(all, r) == k then Members(all, rs[..i], k) + [RowOf(r)] else Members(all, rs[..i], k)
  {
    assert rs[..i + 1][..i] == rs[..i];
  }

  lemma OrderStep(all: seq<Rec>, rs: seq<Rec>, i: nat)
    requires i < |rs|
    ensures var p := Order(all, rs[..i]); var r := rs[i]; var k := KeyOf(all, r);
      Order(all, rs[..i + 1]) == if r.full == [] || k == [] || k in p then p else p + [k]
  {
    assert rs[..i + 1][..i] == rs[..i];
  }

  /** A key with members is in the order; the empty key never is. */
  lemma {:induction false} MembersOrder(all: seq<Rec>, rs: seq<Rec>, k: string)
    ensures k != [] && Members(all, rs, k) != [] ==> k in Order(all, rs)
    ensures [] !in Order(all, rs)
  {
    if rs != [] {
      MembersOrder(all, rs[..|rs| - 1], k);
    }
  }

  /** The state of the second loop after the records before `i`. */
  ghost predicate Assigned(all: seq<Rec>, i: nat, keys: seq<string>, groups: map<string, seq<Row>>, singles: seq<Row>)
    requires i <= |all|
  {
    && keys == Order(all, all[..i])
    && singles == Members(all, all[..i], [])
    && (forall k :: k in groups <==> k in keys)
    && (forall k :: k in groups ==> groups[k] == Members(all, all[..i], k))
  }

  lemma AssignSkip(all: seq<Rec>, i: nat, keys: seq<string>, groups: map<string, seq<Row>>, singles: seq<Row>)
    requires i < |all| && Assigned(all, i, keys, groups, singles) && all[i].full == []
    ensures Assigned(all, i + 1, keys, groups, singles)
  {
    OrderStep(all, all, i);
    MembersStep(all, all, i, []);
    forall k | k in groups ensures groups[k] == Members(all, all[..i + 1], k) {
      MembersStep(all, all, i, k);
    }
  }

  lemma AssignSingle(all: seq<Rec>, i: nat, keys: seq<string>, groups: map<string, seq<Row>>, singles: seq<Row>)
    requires i < |all| && Assigned(all, i, keys, groups, singles) && all[i].full != [] && KeyOf(all, all[i]) == []
    ensures Assigned(all, i + 1, keys, groups, singles + [RowOf(all[i])])
  {
    OrderStep(all, all, i);
    MembersStep(all, all, i, []);
    MembersOrder(all, all[..i], []);
    forall k | k in groups ensures groups[k] == Members(all, all[..i + 1], k) {
      MembersStep(all, all, i, k);
    }
  }

  /** A record whose key already has a list is appended to it. */
  lemma AssignOld(all: seq<Rec>, i: nat, keys: seq<string>, groups: map<string, seq<Row>>, singles: seq<Row>, key: string)
    requires i < |all| && Assigned(all, i, keys, groups, singles) && all[i].full != []
    requires key == KeyOf(all, all[i]) && key != [] && key in groups
    ensures Assigned(all, i + 1, keys, groups[key := groups[key] + [RowOf(all[i])]], singles)
  {
    OrderStep(all, all, i);
    MembersStep(all, all, i, []);
    var groups' := groups[key := groups[key] + [RowOf(all[i])]];
    forall k | k in groups' ensures groups'[k] == Members(all, all[..i + 1], k) {
      MembersStep(all, all, i, k);
    }
  }

  /** A record whose key has no list yet starts one, and the key joins the order. */
  lemma AssignNew(all: seq<Rec>, i: nat, keys: seq<string>, groups: map<string, seq<Row>>, singles: seq<Row>, key: string)
    requires i < |all| && Assigned(all, i, keys, groups, singles) && all[i].full != []
    requires key == KeyOf(all, all[i]) && key != [] && key !in groups
    ensures Assigned(all, i + 1, keys + [key], groups[key := [RowOf(all[i])]], singles)
  {
    OrderStep(all, all, i);
    MembersStep(all, all, i, []);
    MembersOrder(all, all[..i], key);
    var groups' := groups[key := [RowOf(all[i])]];
    forall k | k in groups' ensures groups'[k] == Members(all, all[..i + 1], k) {
      MembersStep(all, all, i, k);
    }
  }

  lemma AssignGroup(all: seq<Rec>, i: nat, keys: seq<string>, groups: map<string, seq<Row>>, singles: seq<Row>)
    requires i < |all| && Assigned(all, i, keys, groups, singles) && all[i].full != []
    requires KeyOf(all, all[i]) != []
    ensures var key := KeyOf(all, all[i]);
      var keys' := if key in groups then keys else keys + [key];
      var old' := if key in groups then groups[key] else [];
      Assigned(all, i + 1, keys', groups[key := old' + [RowOf(all[i])]], singles)
  {
    var key := KeyOf(all, all[i]);
    if key in groups {
      AssignOld(all, i, keys, groups, singles, key);
    } else {
      AssignNew(all, i, keys, groups, singles, key);
    }
  }

  /** The key the second loop computes from the two dictionaries is KeyOf. */
  lemma KeyOfFreqs(all: seq<Rec>, r: Rec, freq1: map<string, int>, freq2: map<string, int>)
    requires forall k :: Freq(freq1, k) == Count1(all, k)
    requires forall k :: Freq(freq2, k) == Count2(all, k)
    ensures KeyOf(all, r) == if K2(r) != [] && Freq(freq2, K2(r)) >= 2 then K2(r)
      else if K1(r) != [] && Freq(freq1, K1(r)) >= 2 then K1(r) else []
  {
  }

  /** The second loop: `groupsMap` (its keys in insertion order and its lists) and `singles`. */
  method Assign(rec: seq<Rec>, freq1: map<string, int>, freq2: map<string, int>)
    returns (keys: seq<string>, groups: map<string, seq<Row>>, singles: seq<Row>)
    requires forall k :: Freq(freq1, k) == Count1(rec, k)
    requires forall k :: Freq(freq2, k) == Count2(rec, k)
    ensures keys == Order(rec, rec) && singles == Members(rec, rec, [])
    ensures forall k :: k in keys ==> k in groups && groups[k] == Members(rec, rec, k)
  {
    keys := [];
    groups := map[];
    singles := [];
    for i := 0 to |rec|
      invariant Assigned(rec, i, keys, groups, singles)
    {
      var r := rec[i];
      if r.full == [] {
        AssignSkip(rec, i, keys, groups, singles);
        continue;
      }
      var k2 := K2(r);
      var k1 := K1(r);
      var key := [];
      if k2 != [] && Freq(freq2, k2) >= 2 {
        key := k2;
      } else if k1 != [] && Freq(freq1, k1) >= 2 {
        key := k1;
      }
      KeyOfFreqs(rec, r, freq1, freq2);
      if key != [] {
        AssignGroup(rec, i, keys, groups, singles);
        var items := if key in groups then groups[key] else [];
        keys := if key in groups then keys else keys + [key];
        groups := groups[key := items + [Row(r.full, r.path)]];
      } else {
        AssignSingle(rec, i, keys, groups, singles);
        singles := singles + [Row(r.full, r.path)];
      }
    }
    assert rec[..|rec|] == rec;
  }

  /** groupItems: build the records, count, assign, then sort the groups, their items and the singles. */
  method GroupItems(items: seq<JsItem>) returns (groups: seq<Group>, singles: seq<Row>)
    ensures Grouped(groups, singles) == GroupItemsSpec(items)
  {
    var rec := Records(items);
    var freq1, freq2 := CountFreqs(rec);
    var keys, groupsMap, single := Assign(rec, freq1, freq2);
    var entries := seq(|keys|, j requires 0 <= j < |keys| => Group(keys[j], Sort(groupsMap[keys[j]], RowLe)));
    assert entries == GroupsOf(rec, keys);
    groups := Sort(entries, GroupLe);
    singles := Sort(single, RowLe);
  }

  // ---------------------------------------------------------------------
  // Every titled record is kept exactly once
  // ---------------------------------------------------------------------

  /** The rows of the records with a non-empty title, in record order. */
  function LiveRows(rs: seq<Rec>): seq<Row>
  {
    if rs == [] then []
    else
      var r := rs[|rs| - 1];
      LiveRows(rs[..|rs| - 1]) + if r.full != [] then [RowOf(r)] else []
  }

  /** The rows pushed under each of `keys`, together. */
  function Pool(all: seq<Rec>, rs: seq<Rec>, keys: seq<string>): multiset<Row>
  {
    if keys == [] then multiset{} else multiset(Members(all, rs, keys[0])) + Pool(all, rs, keys[1..])
  }

  /** The items of all groups, together. */
  function Total(gs: seq<Group>): multiset<Row>
  {
    if gs == [] then multiset{} else multiset(gs[0].items) + Total(gs[1..])
  }

  lemma {:induction false} OrderNoDup(all: seq<Rec>, rs: seq<Rec>)
    ensures NoDup(Order(all, rs))
  {
    if rs != [] {
      OrderNoDup(all, rs[..|rs| - 1]);
    }
  }

  /** Members of the snoc: the new record's row joins the list of its own key only. */
  lemma MembersSnoc(all: seq<Rec>, rs: seq<Rec>, r: Rec, k: string)
    ensures Members(all, rs + [r], k) == if r.full != [] && KeyOf(all, r) == k then Members(all, rs, k) + [RowOf(r)] else Members(all, rs, k)
  {
    assert (rs + [r])[..|rs|] == rs;
  }

  lemma {:induction false} PoolSnoc(all: seq<Rec>, rs: seq<Rec>, r: Rec, keys: seq<string>)
    requires NoDup(keys)
    ensures Pool(all, rs + [r], keys) == Pool(all, rs, keys) + if r.full != [] && KeyOf(all, r) in keys then multiset{RowOf(r)} else multiset{}
  {
    if keys != [] {
      MembersSnoc(all, rs, r, keys[0]);
      assert NoDup(keys[1..]) by {
        forall i, j | 0 <= i < j < |keys[1..]| ensures keys[1..][i] != keys[1..][j] {
          assert keys[1..][i] == keys[i + 1] && keys[1..][j] == keys[j + 1];
        }
      }
      assert keys[0] !in keys[1..] by {
        forall j | 0 <= j < |keys[1..]| ensures keys[1..][j] != keys[0] {
          assert keys[1..][j] == keys[j + 1];
        }
      }
      assert KeyOf(all, r) in keys <==> KeyOf(all, r) == keys[0] || KeyOf(all, r) in keys[1..] by {
        assert keys == [keys[0]] + keys[1..];
      }
      PoolSnoc(all, rs, r, keys[1..]);
    }
  }

  lemma {:induction false} PoolAppend(all: seq<Rec>, rs: seq<Rec>, keys: seq<string>, k: string)
    ensures Pool(all, rs, keys + [k]) == Pool(all, rs, keys) + multiset(Members(all, rs, k))
  {
    if keys == [] {
      assert ([] + [k])[1..] == [];
    } else {
      assert (keys + [k])[1..] == keys[1..] + [k];
      PoolAppend(all, rs, keys[1..], k);
    }
  }

  /** The singles and the lists under the keys of `Order` share out the titled rows. */
  lemma {:induction false} Conserve(all: seq<Rec>, rs: seq<Rec>)
    ensures multiset(Members(all, rs, [])) + Pool(all, rs, Order(all, rs)) == multiset(LiveRows(rs))
  {
    if rs != [] {
      var p := rs[..|rs| - 1];
      var r := rs[|rs| - 1];
      assert rs == p + [r];
      Conserve(all, p);
      var o := Order(all, p);
      var k := KeyOf(all, r);
      OrderNoDup(all, p);
      MembersOrder(all, p, k);
      PoolSnoc(all, p, r, o);
      if r.full != [] && k != [] && k !in o {
        PoolAppend(all, rs, o, k);
        MembersSnoc(all, p, r, k);
      }
    }
  }

  lemma {:induction false} TotalInsert(x: Group, gs: seq<Group>)
    ensures Total(Insert(x, gs, GroupLe)) == multiset(x.items) + Total(gs)
  {
    if gs != [] && !GroupLe(x, gs[0]) {
      TotalInsert(x, gs[1..]);
      assert ([gs[0]] + Insert(x, gs[1..], GroupLe))[1..] == Insert(x, gs[1..], GroupLe);
    } else {
      assert ([x] + gs)[1..] == gs;
    }
  }

  lemma {:induction false} TotalSort(gs: seq<Group>)
    ensures Total(Sort(gs, GroupLe)) == Total(gs)
  {
    if gs != [] {
      TotalSort(gs[1..]);
      TotalInsert(gs[0], Sort(gs[1..], GroupLe));
    }
  }

  lemma {:induction false} TotalGroups(all: seq<Rec>, keys: seq<string>)
    ensures Total(GroupsOf(all, keys)) == Pool(all, all, keys)
  {
    if keys != [] {
      assert GroupsOf(all, keys)[1..] == GroupsOf(all, keys[1..]);
      SortPerm(Members(all, all, keys[0]), RowLe);
      TotalGroups(all, keys[1..]);
    }
  }

  /** Every record with a non-empty title is in exactly one group or in the singles, and no other row is. */
  lemma GroupItemsConserve(items: seq<JsItem>)
    ensures Total(GroupItemsSpec(items).groups) + multiset(GroupItemsSpec(items).singles) == multiset(LiveRows(Records(items)))
  {
    var all := Records(items);
    Conserve(all, all);
    TotalGroups(all, Order(all, all));
    TotalSort(GroupsOf(all, Order(all, all)));
    SortPerm(Members(all, all, []), RowLe);
  }

  // ---------------------------------------------------------------------
  // Where each record goes, and what a group holds
  // ---------------------------------------------------------------------

  lemma {:induction false} MembersHas(all: seq<Rec>, rs: seq<Rec>, i: nat)
    requires i < |rs| && rs[i].full != []
    ensures RowOf(rs[i]) in Members(all, rs, KeyOf(all, rs[i]))
  {
    if i < |rs| - 1 {
      MembersHas(all, rs[..|rs| - 1], i);
    }
  }

  lemma {:induction false} MembersFrom(all: seq<Rec>, rs: seq<Rec>, k: string, row: Row)
    requires row in Members(all, rs, k)
    ensures exists i :: 0 <= i < |rs| && rs[i].full != [] && KeyOf(all, rs[i]) == k && RowOf(rs[i]) == row
  {
    var p := rs[..|rs| - 1];
    if row in Members(all, p, k) {
      MembersFrom(all, p, k, row);
      var i :| 0 <= i < |p| && p[i].full != [] && KeyOf(all, p[i]) == k && RowOf(p[i]) == row;
      assert rs[i] == p[i];
    } else {
      assert rs[|rs| - 1].full != [] && KeyOf(all, rs[|rs| - 1]) == k && RowOf(rs[|rs| - 1]) == row;
    }
  }

  /** A key names a group only when it is shared by at least two titled records. */
  lemma KeyShared(all: seq<Rec>, r: Rec)
    requires KeyOf(all, r) != []
    ensures Count2(all, KeyOf(all, r)) >= 2 || Count1(all, KeyOf(all, r)) >= 2
  {
  }

  /** A key enters the order with a member, and only when shared by two titled records. */
  lemma {:induction false} OrderKeyShared(all: seq<Rec>, rs: seq<Rec>, k: string)
    requires k in Order(all, rs)
    ensures Members(all, rs, k) != []
    ensures Count2(all, k) >= 2 || Count1(all, k) >= 2
  {
    var p := rs[..|rs| - 1];
    if k in Order(all, p) {
      OrderKeyShared(all, p, k);
    } else {
      KeyShared(all, rs[|rs| - 1]);
    }
  }

  lemma {:induction false} GroupsOfMember(all: seq<Rec>, keys: seq<string>, g: Group)
    requires g in Sort(GroupsOf(all, keys), GroupLe)
    ensures g.title in keys && multiset(g.items) == multiset(Members(all, all, g.title))
  {
    SortPerm(GroupsOf(all, keys), GroupLe);
    assert g in multiset(GroupsOf(all, keys));
    var j :| 0 <= j < |keys| && GroupsOf(all, keys)[j] == g;
    SortPerm(Members(all, all, keys[j]), RowLe);
  }

  /**
    A titled record goes to the singles when it has no key, and otherwise to
    the one group titled by its key.
   */
  lemma GroupItemsPlace(items: seq<JsItem>, i: nat)
    requires i < |items| && Records(items)[i].full != []
    ensures var all := Records(items);
      && (KeyOf(all, all[i]) == [] ==> RowOf(all[i]) in GroupItemsSpec(items).singles)
      && (KeyOf(all, all[i]) != [] ==> exists g :: g in GroupItemsSpec(items).groups && g.title == KeyOf(all, all[i]) && RowOf(all[i]) in g.items)
  {
    var all := Records(items);
    var k := KeyOf(all, all[i]);
    MembersHas(all, all, i);
    if k == [] {
      SortPerm(Members(all, all, []), RowLe);
      assert RowOf(all[i]) in multiset(Members(all, all, []));
    } else {
      MembersOrder(all, all, k);
      var keys := Order(all, all);
      var j :| 0 <= j < |keys| && keys[j] == k;
      var g := GroupsOf(all, keys)[j];
      SortPerm(Members(all, all, k), RowLe);
      assert RowOf(all[i]) in multiset(Members(all, all, k));
      assert RowOf(all[i]) in g.items;
      SortPerm(GroupsOf(all, keys), GroupLe);
      assert g in multiset(GroupsOf(all, keys));
      assert g in GroupItemsSpec(items).groups;
    }
  }

  /**
    Every group is titled by a key shared by at least two titled records, is
    non-empty, and holds only rows of records whose key is its title.
   */
  lemma GroupItemsGroups(items: seq<JsItem>, g: Group, row: Row)
    requires g in GroupItemsSpec(items).groups
    ensures var all := Records(items);
      && g.items != []
      && (Count2(all, g.title) >= 2 || Count1(all, g.title) >= 2)
      && (row in g.items ==> exists i :: 0 <= i < |all| && all[i].full != [] && KeyOf(all, all[i]) == g.title && RowOf(all[i]) == row)
  {
    var all := Records(items);
    GroupsOfMember(all, Order(all, all), g);
    var ms := Members(all, all, g.title);
    OrderKeyShared(all, all, g.title);
    assert ms[0] in multiset(g.items);
    if row in g.items {
      assert row in multiset(ms);
      MembersFrom(all, all, g.title, row);
    }
  }

  /** Every single is the row of a titled record without a key. */
  lemma GroupItemsSingles(items: seq<JsItem>, row: Row)
    requires row in GroupItemsSpec(items).singles
    ensures var all := Records(items);
      exists i :: 0 <= i < |all| && all[i].full != [] && KeyOf(all, all[i]) == [] && RowOf(all[i]) == row
  {
    var all := Records(items);
    SortPerm(Members(all, all, []), RowLe);
    assert row in multiset(Members(all, all, []));
    MembersFrom(all, all, [], row);
  }

  // ---------------------------------------------------------------------
  // Sorting
  // ---------------------------------------------------------------------

  lemma RowLeTotal()
    ensures TotalPreorder(RowLe)
  {
    forall a: Row, b: Row ensures RowLe(a, b) || RowLe(b, a) {
      StrLeTotal(a.title, b.title);
    }
    forall a: Row, b: Row, c: Row | RowLe(a, b) && RowLe(b, c) ensures RowLe(a, c) {
      StrLeTrans(a.title, b.title, c.title);
    }
  }

  lemma GroupLeTotal()
    ensures TotalPreorder(GroupLe)
  {
    forall a: Group, b: Group ensures GroupLe(a, b) || GroupLe(b, a) {
      StrLeTotal(a.title, b.title);
    }
    forall a: Group, b: Group, c: Group | GroupLe(a, b) && GroupLe(b, c) ensures GroupLe(a, c) {
      if |a.items| == |b.items| == |c.items| {
        StrLeTrans(a.title, b.title, c.title);
      }
    }
  }

  /** Groups by item count descending, then title; singles by title. */
  lemma GroupItemsSorted(items: seq<JsItem>)
    ensures var gs := GroupItemsSpec(items).groups;
      forall i, j :: 0 <= i < j < |gs| ==>
        |gs[i].items| > |gs[j].items| || (|gs[i].items| == |gs[j].items| && StrLe(gs[i].title, gs[j].title))
    ensures var ss := GroupItemsSpec(items).singles;
      forall i, j :: 0 <= i < j < |ss| ==> StrLe(ss[i].title, ss[j].title)
  {
    var all := Records(items);
    GroupLeTotal();
    RowLeTotal();
    SortSpec(GroupsOf(all, Order(all, all)), GroupLe);
    SortSpec(Members(all, all, []), RowLe);
  }

  /** The items inside each group are sorted by title. */
  lemma GroupItemsSortedWithin(items: seq<JsItem>, g: Group)
    requires g in GroupItemsSpec(items).groups
    ensures forall i, j :: 0 <= i < j < |g.items| ==> StrLe(g.items[i].title, g.items[j].title)
  {
    var all := Records(items);
    var keys := Order(all, all);
    SortPerm(GroupsOf(all, keys), GroupLe);
    assert g in multiset(GroupsOf(all, keys));
    var j :| 0 <= j < |keys| && GroupsOf(all, keys)[j] == g;
    RowLeTotal();
    SortSpec(Members(all, all, keys[j]), RowLe);
  }

  // ---------------------------------------------------------------------
  // Titles and keys
  // ---------------------------------------------------------------------

  /** `full` has single spaces only and no space at either end. */
  lemma FullTitleShape(it: JsItem)
    ensures var f := FullTitle(it);
      Squeezed(f) && (f == [] || (f[0] != ' ' && f[|f| - 1] != ' '))
  {
    CollapseTrimClean(SepNorm(TitleFromItem(it)), Whitespace);
  }

  /**
    A first-segment key holds no " / " and a two-segment key does, so the two
    kinds of key never name the same group.
   */
  lemma KeysDistinct(items: seq<JsItem>, i: nat, j: nat)
    requires i < |items| && j < |items|
    ensures var all := Records(items);
      K1(all[i]) != [] && |all[i].segs| >= 1 ==> K1(all[i]) != K2(all[j])
  {
    var all := Records(items);
    if |all[i].segs| >= 1 && |all[j].segs| >= 2 {
      SegmentsSpec(all[i].full, all[i].segs[0]);
      var k2 := K2(all[j]);
      var n := |all[j].segs[0]|;
      assert At(k2, n, Sep) by {
        assert k2[n..n + |Sep|] == Sep;
      }
    }
  }

  /**
    A worked example over three hand-built records, not a property of all
    inputs. `freq1` also counts the records that go to a two-segment group,
    so a first-segment group can hold a single record: of "A / B", "A / B"
    and "A / C", the last goes alone under "A".
   */
  lemma OneItemGroup()
    ensures var all := [Rec("A / B", ["A", "B"], "/x"), Rec("A / B", ["A", "B"], "/y"), Rec("A / C", ["A", "C"], "/z")];
      Members(all, all, "A") == [Row("A / C", "/z")] && Count1(all, "A") == 3
  {
    var r0, r1, r2 := Rec("A / B", ["A", "B"], "/x"), Rec("A / B", ["A", "B"], "/y"), Rec("A / C", ["A", "C"], "/z");
    var all := [r0, r1, r2];
    assert K2(r0) == "A / B" && K2(r1) == "A / B" && K2(r2) == "A / C";
    assert all[..2] == [r0, r1] && [r0, r1][..1] == [r0] && [r0][..0] == [];
    assert Count2([r0], "A / B") == 1;
    assert Count2([r0, r1], "A / B") == 2;
    assert Count2(all, "A / B") == 2;
    assert "A / B"[4] != "A / C"[4];
    assert Count2([r0], "A / C") == 0;
    assert Count2([r0, r1], "A / C") == 0;
    assert Count2(all, "A / C") == 1;
    assert Count1([r0], "A") == 1;
    assert Count1([r0, r1], "A") == 2;
    assert Count1(all, "A") == 3;
    assert KeyOf(all, r0) == "A / B" && KeyOf(all, r1) == "A / B" && KeyOf(all, r2) == "A";
    assert Members(all, [r0], "A") == [];
    assert Members(all, [r0, r1], "A") == [];
  }
}
