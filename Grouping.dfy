/**
 * What the loop of `preview` (main.py) computes besides copying: reports are
 * grouped by lab in a dictionary whose keys keep the order in which the labs
 * were first met, and tree node ids are handed out, one to a lab when it is
 * first met and one to every report. This module states those results as
 * functions of the report list; `keyOf` is the lab a report belongs to
 * (`get_lab_name`, with `None` for invalid names).
 */
module Grouping {
  import opened Wrappers
  import opened StringOrder

  /** A report's lab: its name, or `None` for an invalid file name. */
  type Key = Option<string>

  /** An entry of `main_tree`: the lab's tree id and its reports in order. */
  datatype LabNode = LabNode(id: nat, files: seq<string>)

  /** The keys of a list of reports. */
  function Keys(keyOf: string -> Key, files: seq<string>): (ks: seq<Key>)
    ensures |ks| == |files|
  {
    seq(|files|, i requires 0 <= i < |files| => keyOf(files[i]))
  }

  /** The keys of `s` in order of first occurrence, each once. */
  function Distinct(s: seq<Key>): (r: seq<Key>)
    ensures forall x :: x in r <==> x in s
    ensures NoDuplicates(r)
    ensures |r| <= |s|
  {
    if s == [] then []
    else
      var init := Distinct(s[..|s| - 1]);
      var x := s[|s| - 1];
      assert s == s[..|s| - 1] + [x];
      if x in init then init else init + [x]
  }

  /** The position at which `k` first occurs in `s`. */
  function FirstIndex(s: seq<Key>, k: Key): (r: nat)
    requires k in s
    ensures r < |s| && s[r] == k
    ensures forall j :: 0 <= j < r ==> s[j] != k
  {
    if s[0] == k then 0
    else
      var r := FirstIndex(s[1..], k) + 1;
      assert forall j :: 1 <= j < r ==> s[j] == s[1..][j - 1];
      r
  }

  /** The reports of lab `k`, in the order of `files`. */
  function Members(keyOf: string -> Key, files: seq<string>, k: Key): (r: seq<string>)
    ensures forall x :: x in r ==> x in files && keyOf(x) == k
    ensures |r| <= |files|
  {
    if files == [] then []
    else
      var init := Members(keyOf, files[..|files| - 1], k);
      var x := files[|files| - 1];
      assert forall y :: y in files[..|files| - 1] ==> y in files;
      if keyOf(x) == k then init + [x] else init
  }

  /** Sum of the group sizes of the keys `ks`. */
  function SumSizes(keyOf: string -> Key, files: seq<string>, ks: seq<Key>): nat
  {
    if ks == [] then 0
    else SumSizes(keyOf, files, ks[..|ks| - 1]) + |Members(keyOf, files, ks[|ks| - 1])|
  }

  /** Node id of lab `k`: one id for every report and every lab seen before it. */
  function LabId(s: seq<Key>, k: Key): nat
    requires k in s
  {
    FirstIndex(s, k) + |Distinct(s[..FirstIndex(s, k)])|
  }

  /** Node id of report `i`: one id for every report before it and every lab seen up to it. */
  function FileId(s: seq<Key>, i: nat): nat
    requires i < |s|
  {
    i + |Distinct(s[..i + 1])|
  }

  /** The id counter after the whole list: one per report and one per lab. */
  function NextId(s: seq<Key>): nat
  {
    |s| + |Distinct(s)|
  }

  // ---------------------------------------------------------------------
  // First-occurrence order

  /** Extending a list adds the new key at the end of its distinct keys, if it is new. */
  lemma DistinctSnoc(s: seq<Key>, x: Key)
    ensures Distinct(s + [x]) == if x in s then Distinct(s) else Distinct(s) + [x]
  {
    assert (s + [x])[..|s|] == s;
  }

  /** Extending a list only appends to its distinct keys. */
  lemma DistinctGrows(s: seq<Key>, x: Key)
    ensures |Distinct(s)| <= |Distinct(s + [x])|
    ensures Distinct(s + [x])[..|Distinct(s)|] == Distinct(s)
  {
    DistinctSnoc(s, x);
  }

  /** The distinct keys of a prefix are a prefix of the distinct keys. */
  lemma {:induction false} DistinctPrefix(s: seq<Key>, i: nat, j: nat)
    requires i <= j <= |s|
    ensures |Distinct(s[..i])| <= |Distinct(s[..j])|
    ensures Distinct(s[..j])[..|Distinct(s[..i])|] == Distinct(s[..i])
    decreases j - i
  {
    if i < j {
      DistinctPrefix(s, i, j - 1);
      assert s[..j] == s[..j - 1] + [s[j - 1]];
      DistinctGrows(s[..j - 1], s[j - 1]);
      var a, b, c := Distinct(s[..i]), Distinct(s[..j - 1]), Distinct(s[..j]);
      assert c[..|a|] == c[..|b|][..|a|];
    }
  }

  /** Where a key sits in the distinct keys: after the distinct keys met before it. */
  lemma DistinctPosition(s: seq<Key>, k: Key)
    requires k in s
    ensures |Distinct(s[..FirstIndex(s, k)])| < |Distinct(s)|
    ensures Distinct(s)[|Distinct(s[..FirstIndex(s, k)])|] == k
  {
    var f := FirstIndex(s, k);
    assert s[..f + 1] == s[..f] + [k];
    assert k !in s[..f];
    DistinctSnoc(s[..f], k);
    var before, upTo := Distinct(s[..f]), Distinct(s[..f + 1]);
    assert upTo == before + [k];
    DistinctPrefix(s, f + 1, |s|);
    assert s[..|s|] == s;
    assert Distinct(s)[..|upTo|] == upTo;
    assert Distinct(s)[|before|] == upTo[|before|];
  }

  /** A key's position in a duplicate-free list is its only one. */
  lemma IndexOfNoDuplicates(s: seq<Key>, a: nat, b: nat)
    requires NoDuplicates(s) && a < |s| && b < |s| && s[a] == s[b]
    ensures a == b
  {
  }

  /** Groups appear in the order in which their labs are first met. */
  lemma DistinctInOrder(s: seq<Key>, a: nat, b: nat)
    requires a < b < |Distinct(s)|
    ensures FirstIndex(s, Distinct(s)[a]) < FirstIndex(s, Distinct(s)[b])
  {
    var d := Distinct(s);
    var fa, fb := FirstIndex(s, d[a]), FirstIndex(s, d[b]);
    DistinctPosition(s, d[a]);
    DistinctPosition(s, d[b]);
    IndexOfNoDuplicates(d, |Distinct(s[..fa])|, a);
    IndexOfNoDuplicates(d, |Distinct(s[..fb])|, b);
    if fb <= fa {
      DistinctPrefix(s, fb, fa);
    }
  }

  // ---------------------------------------------------------------------
  // Group membership

  /** Extending the list adds the new report to the end of its own group only. */
  lemma MembersSnoc(keyOf: string -> Key, files: seq<string>, x: string, k: Key)
    ensures Members(keyOf, files + [x], k) == Members(keyOf, files, k) + (if keyOf(x) == k then [x] else [])
  {
    assert (files + [x])[..|files|] == files;
  }

  /** A lab with no report in the list has an empty group. */
  lemma {:induction false} MembersOfAbsent(keyOf: string -> Key, files: seq<string>, k: Key)
    requires k !in Keys(keyOf, files)
    ensures Members(keyOf, files, k) == []
  {
    if files != [] {
      var init := files[..|files| - 1];
      assert Keys(keyOf, files)[|files| - 1] == keyOf(files[|files| - 1]);
      assert Keys(keyOf, init) == Keys(keyOf, files)[..|files| - 1];
      MembersOfAbsent(keyOf, init, k);
    }
  }

  /**
   * Within its group, report `i` comes after exactly the earlier reports of
   * the same lab: groups keep the order of the list.
   */
  lemma {:induction false} MemberPosition(keyOf: string -> Key, files: seq<string>, i: nat)
    requires i < |files|
    ensures var k := keyOf(files[i]);
      |Members(keyOf, files[..i], k)| < |Members(keyOf, files, k)| &&
      Members(keyOf, files, k)[|Members(keyOf, files[..i], k)|] == files[i]
    decreases |files|
  {
    var k := keyOf(files[i]);
    var n := |files|;
    if i == n - 1 {
      assert files == files[..i] + [files[i]];
      MembersSnoc(keyOf, files[..i], files[i], k);
    } else {
      var init := files[..n - 1];
      assert init[..i] == files[..i] && init[i] == files[i];
      MemberPosition(keyOf, init, i);
      assert files == init + [files[n - 1]];
      MembersSnoc(keyOf, init, files[n - 1], k);
    }
  }

  /** Every report lands in exactly one group: the one of its own lab. */
  lemma InExactlyOneGroup(keyOf: string -> Key, files: seq<string>, i: nat, k: Key)
    requires i < |files|
    ensures files[i] in Members(keyOf, files, k) <==> k == keyOf(files[i])
  {
    if k == keyOf(files[i]) {
      MemberPosition(keyOf, files, i);
    }
  }

  /** Summing over keys that do not include the new report's lab ignores it. */
  lemma {:induction false} SumSizesSnoc(keyOf: string -> Key, files: seq<string>, x: string, ks: seq<Key>)
    requires NoDuplicates(ks)
    ensures SumSizes(keyOf, files + [x], ks) == SumSizes(keyOf, files, ks) + (if keyOf(x) in ks then 1 else 0)
  {
    if ks != [] {
      var init := ks[..|ks| - 1];
      var k := ks[|ks| - 1];
      SumSizesSnoc(keyOf, files, x, init);
      MembersSnoc(keyOf, files, x, k);
      assert ks == init + [k];
      assert k !in init;
    }
  }

  /** The group counts add up to the number of reports. */
  lemma {:induction false} GroupSizesSum(keyOf: string -> Key, files: seq<string>)
    ensures SumSizes(keyOf, files, Distinct(Keys(keyOf, files))) == |files|
  {
    if files != [] {
      var init := files[..|files| - 1];
      var x := files[|files| - 1];
      var ks := Keys(keyOf, init);
      GroupSizesSum(keyOf, init);
      assert files == init + [x];
      assert Keys(keyOf, files) == ks + [keyOf(x)];
      DistinctSnoc(ks, keyOf(x));
      SumSizesSnoc(keyOf, init, x, Distinct(ks));
      if keyOf(x) !in ks {
        var d := Distinct(ks);
        assert (d + [keyOf(x)])[..|d|] == d;
        MembersOfAbsent(keyOf, init, keyOf(x));
        MembersSnoc(keyOf, init, x, keyOf(x));
      }
    }
  }

  // ---------------------------------------------------------------------
  // Tree node ids

  /** The first occurrence of a key adds it to the distinct keys met so far. */
  lemma FirstIsNew(s: seq<Key>, k: Key)
    requires k in s
    ensures |Distinct(s[..FirstIndex(s, k) + 1])| == |Distinct(s[..FirstIndex(s, k)])| + 1
  {
    var f := FirstIndex(s, k);
    assert k !in s[..f];
    assert s[..f + 1] == s[..f] + [k];
    DistinctSnoc(s[..f], k);
  }

  /** A lab's node id is below the id of each of its reports. */
  lemma LabIdBeforeFileIds(s: seq<Key>, i: nat)
    requires i < |s|
    ensures LabId(s, s[i]) < FileId(s, i)
  {
    var k := s[i];
    var f := FirstIndex(s, k);
    assert f <= i;
    FirstIsNew(s, k);
    DistinctPrefix(s, f + 1, i + 1);
  }

  /** Report ids grow along the list. */
  lemma FileIdsIncrease(s: seq<Key>, i: nat, j: nat)
    requires i < j < |s|
    ensures FileId(s, i) < FileId(s, j)
  {
    DistinctPrefix(s, i + 1, j + 1);
  }

  /** Lab ids grow along the order of the groups. */
  lemma LabIdsIncrease(s: seq<Key>, a: nat, b: nat)
    requires a < b < |Distinct(s)|
    ensures LabId(s, Distinct(s)[a]) < LabId(s, Distinct(s)[b])
  {
    var d := Distinct(s);
    DistinctInOrder(s, a, b);
    DistinctPrefix(s, FirstIndex(s, d[a]), FirstIndex(s, d[b]));
  }

  /** No lab shares its id with a report. */
  lemma LabIdIsNoFileId(s: seq<Key>, k: Key, i: nat)
    requires k in s && i < |s|
    ensures LabId(s, k) != FileId(s, i)
  {
    var f := FirstIndex(s, k);
    FirstIsNew(s, k);
    if i < f {
      DistinctPrefix(s, i + 1, f);
    } else {
      DistinctPrefix(s, f + 1, i + 1);
    }
  }

  /** Every id handed out is below the final counter. */
  lemma IdsBelowNext(s: seq<Key>, k: Key, i: nat)
    requires k in s && i < |s|
    ensures LabId(s, k) < NextId(s) && FileId(s, i) < NextId(s)
  {
    var f := FirstIndex(s, k);
    assert s[..|s|] == s;
    DistinctPosition(s, k);
    DistinctPrefix(s, i + 1, |s|);
  }

  /** Ids of a prefix stay as they are when the list grows. */
  lemma IdsOfPrefix(s: seq<Key>, x: Key)
    ensures forall k :: k in s ==> LabId(s + [x], k) == LabId(s, k)
    ensures forall i :: 0 <= i < |s| ==> FileId(s + [x], i) == FileId(s, i)
  {
    var t := s + [x];
    forall k | k in s ensures LabId(t, k) == LabId(s, k) {
      var f := FirstIndex(s, k);
      assert t[..f] == s[..f];
      assert FirstIndex(t, k) == f by {
        assert t[f] == k;
      }
    }
    forall i | 0 <= i < |s| ensures FileId(t, i) == FileId(s, i) {
      assert t[..i + 1] == s[..i + 1];
    }
  }

  /** The ids the last report of a list brings: its own, and its lab's if the lab is new. */
  lemma LastIds(s: seq<Key>, x: Key)
    ensures FileId(s + [x], |s|) == NextId(s + [x]) - 1
    ensures x !in s ==> x in s + [x] && LabId(s + [x], x) == NextId(s) && NextId(s + [x]) == NextId(s) + 2
    ensures x in s ==> NextId(s + [x]) == NextId(s) + 1
  {
    var t := s + [x];
    assert t[..|s| + 1] == t;
    assert t[..|s|] == s;
    DistinctSnoc(s, x);
    if x !in s {
      assert FirstIndex(t, x) == |s| by {
        assert forall j :: 0 <= j < |s| ==> t[j] == s[j];
      }
    }
  }

  /** The ids handed out are exactly 0, 1, ..., NextId(s) - 1. */
  lemma {:induction false} IdsCover(s: seq<Key>, n: nat)
    requires n < NextId(s)
    ensures (exists k :: k in s && LabId(s, k) == n) || (exists i :: 0 <= i < |s| && FileId(s, i) == n)
  {
    if s != [] {
      var init, x := s[..|s| - 1], s[|s| - 1];
      assert s == init + [x];
      LastIds(init, x);
      if n < NextId(init) {
        IdsCover(init, n);
        IdsOfPrefix(init, x);
        if k :| k in init && LabId(init, k) == n {
          assert k in s && LabId(s, k) == n;
        } else {
          var i :| 0 <= i < |init| && FileId(init, i) == n;
          assert FileId(s, i) == n;
        }
      } else if n == NextId(s) - 1 {
        assert FileId(s, |init|) == n;
      } else {
        assert LabId(s, x) == n;
      }
    }
  }

  // ---------------------------------------------------------------------
  // The dictionary of `preview`

  /**
   * What the loop of `preview` keeps besides the disk: `main_tree` (a map,
   * with its insertion order `order`), the ids given to the reports so far
   * and the id counter.
   */
  datatype Groups = Groups(order: seq<Key>, tree: map<Key, LabNode>, fileIds: seq<nat>, next: nat)

  /**
   * One pass of the loop for report `x` of lab `k`: a new lab gets an entry
   * with the next id; then the report is appended to its lab's entry and
   * gets the id after that.
   */
  function AddReport(g: Groups, x: string, k: Key): (r: Groups)
    ensures k in r.tree
  {
    var g1 := if k in g.tree then g else Groups(g.order + [k], g.tree[k := LabNode(g.next, [])], g.fileIds, g.next + 1);
    Groups(g1.order, g1.tree[k := g1.tree[k].(files := g1.tree[k].files + [x])], g1.fileIds + [g1.next], g1.next + 1)
  }

  /**
   * The dictionary statements of one pass of the loop of `preview`: if the
   * lab `labName` is not in `main_tree` yet, it gets an entry with the next
   * id; the report is appended to the lab's files and takes the next id.
   */
  method RecordReport(order: seq<Key>, tree: map<Key, LabNode>, fileIds: seq<nat>, id: nat, file: string, labName: Key)
      returns (order': seq<Key>, tree': map<Key, LabNode>, fileIds': seq<nat>, id': nat)
    ensures Groups(order', tree', fileIds', id') == AddReport(Groups(order, tree, fileIds, id), file, labName)
  {
    order', tree', fileIds', id' := order, tree, fileIds, id;
    if labName !in tree' {
      tree' := tree'[labName := LabNode(id', [])];
      order' := order' + [labName];
      id' := id' + 1;
    }
    tree' := tree'[labName := tree'[labName].(files := tree'[labName].files + [file])];
    fileIds' := fileIds' + [id'];
    id' := id' + 1;
  }

  /** The state after the loop has gone over the reports of `done`. */
  function GroupsOf(keyOf: string -> Key, done: seq<string>): (g: Groups)
    ensures |g.fileIds| == |done|
    ensures g.next == |done| + |g.order|
  {
    if done == [] then Groups([], map[], [], 0)
    else
      var x := done[|done| - 1];
      AddReport(GroupsOf(keyOf, done[..|done| - 1]), x, keyOf(x))
  }

  /** The loop's state after report `i` of `all`. */
  lemma GroupsOfNext(keyOf: string -> Key, all: seq<string>, i: nat)
    requires i < |all|
    ensures GroupsOf(keyOf, all[..i + 1]) == AddReport(GroupsOf(keyOf, all[..i]), all[i], keyOf(all[i]))
  {
    assert all[..i + 1][..i] == all[..i];
  }

  /** The dictionary's keys are the labs in order of first occurrence. */
  ghost predicate KeyOrder(ks: seq<Key>, g: Groups)
  {
    g.order == Distinct(ks) && forall k :: k in g.tree <==> k in g.order
  }

  /** Each entry holds its lab's id and the lab's reports in list order. */
  ghost predicate Entries(keyOf: string -> Key, done: seq<string>, g: Groups)
  {
    forall k :: k in g.tree ==>
      k in Keys(keyOf, done) && g.tree[k] == LabNode(LabId(Keys(keyOf, done), k), Members(keyOf, done, k))
  }

  /** The reports got the ids `FileId`, and the counter stands at `NextId`. */
  ghost predicate Numbered(ks: seq<Key>, g: Groups)
  {
    |g.fileIds| == |ks| && (forall j :: 0 <= j < |ks| ==> g.fileIds[j] == FileId(ks, j)) && g.next == NextId(ks)
  }

  /** The meaning of the loop's state after the reports of `done`. */
  ghost predicate Grouped(keyOf: string -> Key, done: seq<string>, g: Groups)
  {
    KeyOrder(Keys(keyOf, done), g) && Entries(keyOf, done, g) && Numbered(Keys(keyOf, done), g)
  }

  /** The keys of a longer list. */
  lemma KeysSnoc(keyOf: string -> Key, done: seq<string>, x: string)
    ensures Keys(keyOf, done + [x]) == Keys(keyOf, done) + [keyOf(x)]
  {
  }

  /** A new lab is added at the end of the key order. */
  lemma KeyOrderSnoc(ks: seq<Key>, x: string, k: Key, g: Groups)
    requires KeyOrder(ks, g)
    ensures KeyOrder(ks + [k], AddReport(g, x, k))
  {
    DistinctSnoc(ks, k);
  }

  /** The report ids and the counter after one more report whose lab is `k`. */
  lemma NumberedSnoc(ks: seq<Key>, x: string, k: Key, g: Groups)
    requires Numbered(ks, g)
    requires k in g.tree <==> k in ks
    ensures Numbered(ks + [k], AddReport(g, x, k))
  {
    var r := AddReport(g, x, k);
    var t := ks + [k];
    var before := if k in g.tree then g.next else g.next + 1;
    assert r.fileIds == g.fileIds + [before] && r.next == before + 1;
    LastIds(ks, k);
    assert before == FileId(t, |ks|);
    forall j | 0 <= j < |t| ensures r.fileIds[j] == FileId(t, j) {
      if j < |ks| {
        assert r.fileIds[j] == g.fileIds[j];
        assert t[..j + 1] == ks[..j + 1];
      }
    }
  }

  /** The last report of a non-empty list, and the state before it. */
  lemma GroupsOfLast(keyOf: string -> Key, done: seq<string>)
    requires done != []
    ensures var init, x := done[..|done| - 1], done[|done| - 1];
      done == init + [x] &&
      Keys(keyOf, done) == Keys(keyOf, init) + [keyOf(x)] &&
      GroupsOf(keyOf, done) == AddReport(GroupsOf(keyOf, init), x, keyOf(x))
  {
    var init, x := done[..|done| - 1], done[|done| - 1];
    assert done == init + [x];
    KeysSnoc(keyOf, init, x);
  }

  /** The dictionary's key order is the order in which labs are first met. */
  lemma {:induction false} KeyOrderOf(keyOf: string -> Key, done: seq<string>)
    ensures KeyOrder(Keys(keyOf, done), GroupsOf(keyOf, done))
  {
    if done != [] {
      var init := done[..|done| - 1];
      GroupsOfLast(keyOf, done);
      KeyOrderOf(keyOf, init);
      KeyOrderSnoc(Keys(keyOf, init), done[|done| - 1], keyOf(done[|done| - 1]), GroupsOf(keyOf, init));
    }
  }

  /** The report ids and the counter follow `FileId` and `NextId`. */
  lemma {:induction false} NumberedOf(keyOf: string -> Key, done: seq<string>)
    ensures Numbered(Keys(keyOf, done), GroupsOf(keyOf, done))
  {
    if done != [] {
      var init := done[..|done| - 1];
      GroupsOfLast(keyOf, done);
      NumberedOf(keyOf, init);
      KeyOrderOf(keyOf, init);
      NumberedSnoc(Keys(keyOf, init), done[|done| - 1], keyOf(done[|done| - 1]), GroupsOf(keyOf, init));
    }
  }

  /** Every entry holds its lab's id and reports. */
  lemma {:induction false} EntriesOf(keyOf: string -> Key, done: seq<string>)
    ensures Entries(keyOf, done, GroupsOf(keyOf, done))
  {
    if done != [] {
      var init, x := done[..|done| - 1], done[|done| - 1];
      var k, ks, g := keyOf(x), Keys(keyOf, init), GroupsOf(keyOf, init);
      var r := AddReport(g, x, k);
      GroupsOfLast(keyOf, done);
      EntriesOf(keyOf, init);
      KeyOrderOf(keyOf, init);
      NumberedOf(keyOf, init);
      assert k in g.tree <==> k in ks;
      forall c | c in r.tree
        ensures c in Keys(keyOf, done)
        ensures r.tree[c] == LabNode(LabId(ks + [k], c), Members(keyOf, done, c))
      {
        MembersSnoc(keyOf, init, x, c);
        IdsOfPrefix(ks, k);
        if c == k {
          if k !in g.tree {
            MembersOfAbsent(keyOf, init, k);
            LastIds(ks, k);
          }
        } else {
          assert c in g.tree && r.tree[c] == g.tree[c];
        }
      }
    }
  }

  /** The state the loop builds means what `Grouped` says, for every list of reports. */
  lemma GroupsOfAre(keyOf: string -> Key, done: seq<string>)
    ensures Grouped(keyOf, done, GroupsOf(keyOf, done))
  {
    KeyOrderOf(keyOf, done);
    NumberedOf(keyOf, done);
    EntriesOf(keyOf, done);
  }
}
