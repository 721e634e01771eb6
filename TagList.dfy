/** The tag-frequency report: every entry's tag list is unwound into one row
    per tag, the rows are grouped by tag with a running count, and the groups
    are sorted by count, highest first. */
module TagList {
  import opened Query

  /** One group of the report: a tag and how many rows carried it. */
  datatype TagCount = TagCount(tag: string, count: nat)

  /** How many times `t` occurs across the tag lists of all entries. */
  function Occurrences(entries: seq<seq<string>>, t: string): nat
  {
    if entries == [] then 0 else multiset(entries[0])[t] + Occurrences(entries[1..], t)
  }

  /** `$unwind` on the tags: the tags of every entry, entry after entry. An
      entry with no tags yields no row. */
  function Unwind(entries: seq<seq<string>>): (rows: seq<string>)
    ensures forall t :: multiset(rows)[t] == Occurrences(entries, t)
  {
    if entries == [] then [] else entries[0] + Unwind(entries[1..])
  }

  /** No tag heads two groups. */
  ghost predicate DistinctTags(groups: seq<TagCount>)
  {
    forall i, j :: 0 <= i < j < |groups| ==> groups[i].tag != groups[j].tag
  }

  ghost predicate HasTag(groups: seq<TagCount>, t: string)
  {
    exists i :: 0 <= i < |groups| && groups[i].tag == t
  }

  /** The count of the first group for `t`, or 0 when there is none. */
  function CountFor(groups: seq<TagCount>, t: string): nat
  {
    if groups == [] then 0
    else if groups[0].tag == t then groups[0].count
    else CountFor(groups[1..], t)
  }

  /** The `$sum: 1` accumulator applied to one row carrying tag `t`: the
      group for `t` counts one more, or a new group with count 1 is added. */
  function AddOne(groups: seq<TagCount>, t: string): (r: seq<TagCount>)
    ensures |groups| <= |r| <= |groups| + 1
  {
    if groups == [] then [TagCount(t, 1)]
    else if groups[0].tag == t then [TagCount(t, groups[0].count + 1)] + groups[1..]
    else [groups[0]] + AddOne(groups[1..], t)
  }

  /** The row for `t` raises the count of `t` by one and no other count. */
  lemma {:induction false} AddOneCounts(groups: seq<TagCount>, t: string, u: string)
    ensures CountFor(AddOne(groups, t), u) == CountFor(groups, u) + if u == t then 1 else 0
  {
    if groups != [] && groups[0].tag != t {
      var r := AddOne(groups, t);
      assert r[1..] == AddOne(groups[1..], t);
      AddOneCounts(groups[1..], t, u);
    }
  }

  /** The tags of a list with a group in front: that group's and the rest's. */
  lemma ConsTags(g: TagCount, rest: seq<TagCount>, u: string)
    ensures HasTag([g] + rest, u) <==> g.tag == u || HasTag(rest, u)
  {
    var s := [g] + rest;
    if HasTag(s, u) {
      var i :| 0 <= i < |s| && s[i].tag == u;
      if i > 0 { assert rest[i - 1].tag == u; }
    }
    if HasTag(rest, u) {
      var i :| 0 <= i < |rest| && rest[i].tag == u;
      assert s[i + 1].tag == u;
    }
    if g.tag == u { assert s[0].tag == u; }
  }

  /** After the row for `t`, the tags present are the earlier ones and `t`. */
  lemma {:induction false} AddOneTags(groups: seq<TagCount>, t: string, u: string)
    ensures HasTag(AddOne(groups, t), u) <==> HasTag(groups, u) || u == t
  {
    if groups == [] {
      ConsTags(TagCount(t, 1), [], u);
      assert [TagCount(t, 1)] + [] == AddOne(groups, t);
    } else {
      assert groups == [groups[0]] + groups[1..];
      ConsTags(groups[0], groups[1..], u);
      if groups[0].tag == t {
        ConsTags(TagCount(t, groups[0].count + 1), groups[1..], u);
      } else {
        AddOneTags(groups[1..], t, u);
        ConsTags(groups[0], AddOne(groups[1..], t), u);
      }
    }
  }

  /** The row for `t` never makes two groups share a tag. */
  lemma {:induction false} AddOneDistinct(groups: seq<TagCount>, t: string)
    requires DistinctTags(groups)
    ensures DistinctTags(AddOne(groups, t))
  {
    var r := AddOne(groups, t);
    if groups != [] && groups[0].tag != t {
      var rest := AddOne(groups[1..], t);
      assert r == [groups[0]] + rest;
      assert DistinctTags(groups[1..]);
      AddOneDistinct(groups[1..], t);
      assert !HasTag(groups[1..], groups[0].tag) by {
        forall k | 0 <= k < |groups[1..]| ensures groups[1..][k].tag != groups[0].tag {
          assert groups[1..][k] == groups[k + 1];
        }
      }
      AddOneTags(groups[1..], t, groups[0].tag);
      forall j | 1 <= j < |r| ensures r[0].tag != r[j].tag {
        assert rest[j - 1].tag == r[j].tag;
      }
    }
  }

  /** The row for `t` leaves every count at least 1 when it was. */
  lemma {:induction false} AddOnePositive(groups: seq<TagCount>, t: string)
    requires forall i :: 0 <= i < |groups| ==> groups[i].count >= 1
    ensures forall i :: 0 <= i < |AddOne(groups, t)| ==> AddOne(groups, t)[i].count >= 1
  {
    if groups != [] && groups[0].tag != t {
      var r := AddOne(groups, t);
      assert r == [groups[0]] + AddOne(groups[1..], t);
      AddOnePositive(groups[1..], t);
    }
  }

  /** `$group` by tag with `$sum: 1`: the groups in order of first appearance. */
  function Group(rows: seq<string>): (groups: seq<TagCount>)
    ensures |groups| <= |rows|
  {
    if rows == [] then []
    else AddOne(Group(rows[..|rows| - 1]), rows[|rows| - 1])
  }

  /** One group per distinct tag of the rows, counting exactly its rows. */
  lemma {:induction false} GroupCorrect(rows: seq<string>)
    ensures var groups := Group(rows);
      DistinctTags(groups) &&
      (forall i :: 0 <= i < |groups| ==> groups[i].count >= 1) &&
      (forall u :: CountFor(groups, u) == multiset(rows)[u]) &&
      (forall u :: HasTag(groups, u) <==> u in rows)
  {
    if rows != [] {
      var init, t := rows[..|rows| - 1], rows[|rows| - 1];
      assert rows == init + [t];
      GroupCorrect(init);
      var g := Group(init);
      AddOneDistinct(g, t);
      AddOnePositive(g, t);
      forall u ensures CountFor(Group(rows), u) == multiset(rows)[u] {
        AddOneCounts(g, t, u);
      }
      forall u ensures HasTag(Group(rows), u) <==> u in rows {
        AddOneTags(g, t, u);
      }
    }
  }

  /** Under distinct tags, each group's count is the one `CountFor` finds. */
  lemma {:induction false} CountForAt(groups: seq<TagCount>, i: nat)
    requires DistinctTags(groups) && i < |groups|
    ensures CountFor(groups, groups[i].tag) == groups[i].count
  {
    if i > 0 {
      assert DistinctTags(groups[1..]);
      CountForAt(groups[1..], i - 1);
    }
  }

  /** The sort key of `$sort: { count: -1 }`. */
  function CountKey(g: TagCount): real { g.count as real }

  /** The report as the pipeline returns it: groups ordered by count,
      highest first. */
  function TagsList(entries: seq<seq<string>>): (r: seq<TagCount>)
    ensures forall i, j :: 0 <= i < j < |r| ==> r[i].count >= r[j].count
  {
    var r := SortDesc(Group(Unwind(entries)), CountKey);
    assert forall i, j :: 0 <= i < j < |r| ==> r[i].count >= r[j].count by {
      forall i, j | 0 <= i < j < |r| ensures r[i].count >= r[j].count {
        assert CountKey(r[i]) >= CountKey(r[j]);
      }
    }
    r
  }

  /** A group appears at most once in a list with distinct tags. */
  lemma {:induction false} AtMostOnce(groups: seq<TagCount>, g: TagCount)
    requires DistinctTags(groups)
    ensures multiset(groups)[g] <= 1
    decreases |groups|
  {
    if groups != [] {
      assert groups == [groups[0]] + groups[1..];
      assert DistinctTags(groups[1..]);
      AtMostOnce(groups[1..], g);
      if groups[0] == g {
        assert g !in groups[1..] by {
          forall k | 0 <= k < |groups[1..]| ensures groups[1..][k] != g {
            assert groups[k + 1].tag != groups[0].tag;
          }
        }
      }
    }
  }

  /** A value found at two positions occurs at least twice. */
  lemma TwoPositions<T>(s: seq<T>, i: nat, j: nat)
    requires i < j < |s| && s[i] == s[j]
    ensures multiset(s)[s[i]] >= 2
  {
    assert s == s[..j] + s[j..];
    assert s[..j][i] == s[i];
    assert s[j..][0] == s[i];
    assert s[i] in multiset(s[..j]) && s[i] in multiset(s[j..]);
  }

  /** Reordering groups keeps their tags distinct. */
  lemma PermutationKeepsDistinctTags(a: seq<TagCount>, b: seq<TagCount>)
    requires multiset(a) == multiset(b)
    requires DistinctTags(a)
    ensures DistinctTags(b)
  {
    forall i, j | 0 <= i < j < |b| ensures b[i].tag != b[j].tag {
      if b[i].tag == b[j].tag {
        PermutationMembers(a, b);
        var p :| 0 <= p < |a| && a[p] == b[i];
        var q :| 0 <= q < |a| && a[q] == b[j];
        assert p == q;
        TwoPositions(b, i, j);
        AtMostOnce(a, b[i]);
        assert false;
      }
    }
  }

  /** The report lists each tag that occurs in some entry exactly once, with
      its total number of occurrences across all entries, and no other tag;
      counts never increase along the list. */
  lemma TagsListCorrect(entries: seq<seq<string>>)
    ensures var r := TagsList(entries);
      DistinctTags(r) &&
      (forall i :: 0 <= i < |r| ==> r[i].count == Occurrences(entries, r[i].tag) && r[i].count >= 1) &&
      (forall t :: HasTag(r, t) <==> Occurrences(entries, t) > 0) &&
      (forall i, j :: 0 <= i < j < |r| ==> r[i].count >= r[j].count)
  {
    TagsListDistinct(entries);
    TagsListCounts(entries);
    forall t ensures HasTag(TagsList(entries), t) <==> Occurrences(entries, t) > 0 {
      TagsListHasTag(entries, t);
    }
  }

  lemma TagsListDistinct(entries: seq<seq<string>>)
    ensures DistinctTags(TagsList(entries))
  {
    var groups := Group(Unwind(entries));
    GroupCorrect(Unwind(entries));
    PermutationKeepsDistinctTags(groups, TagsList(entries));
  }

  lemma TagsListCounts(entries: seq<seq<string>>)
    ensures var r := TagsList(entries);
      forall i :: 0 <= i < |r| ==> r[i].count == Occurrences(entries, r[i].tag) && r[i].count >= 1
  {
    var rows := Unwind(entries);
    var groups := Group(rows);
    var r := TagsList(entries);
    GroupCorrect(rows);
    PermutationMembers(groups, r);
    forall i | 0 <= i < |r| ensures r[i].count == Occurrences(entries, r[i].tag) && r[i].count >= 1 {
      var p :| 0 <= p < |groups| && groups[p] == r[i];
      CountForAt(groups, p);
    }
  }

  lemma TagsListHasTag(entries: seq<seq<string>>, t: string)
    ensures HasTag(TagsList(entries), t) <==> Occurrences(entries, t) > 0
  {
    var rows := Unwind(entries);
    var groups := Group(rows);
    GroupCorrect(rows);
    assert multiset(rows)[t] == Occurrences(entries, t);
    PermutedTags(groups, TagsList(entries), t);
    if HasTag(groups, t) {
      var p :| 0 <= p < |groups| && groups[p].tag == t;
      CountForAt(groups, p);
    }
  }

  /** Reordering groups keeps the set of tags. */
  lemma PermutedTags(a: seq<TagCount>, b: seq<TagCount>, t: string)
    requires multiset(a) == multiset(b)
    ensures HasTag(a, t) <==> HasTag(b, t)
  {
    PermutationMembers(a, b);
    if HasTag(a, t) {
      var p :| 0 <= p < |a| && a[p].tag == t;
      var i :| 0 <= i < |b| && b[i] == a[p];
    }
    if HasTag(b, t) {
      var i :| 0 <= i < |b| && b[i].tag == t;
      var p :| 0 <= p < |a| && a[p] == b[i];
    }
  }

  /** Entries tagged ["halal", "friday"], ["friday"] and [] give friday twice,
      then halal once. */
  lemma TagsListExample()
    ensures TagsList([["halal", "friday"], ["friday"], []]) ==
            [TagCount("friday", 2), TagCount("halal", 1)]
  {
    ExampleUnwind();
    ExampleGroup();
    ExampleSort();
  }

  lemma ExampleUnwind()
    ensures Unwind([["halal", "friday"], ["friday"], []]) == ["halal", "friday", "friday"]
  {
    var entries: seq<seq<string>> := [["halal", "friday"], ["friday"], []];
    assert entries[2..] == [[]];
    assert Unwind(entries[2..]) == [];
    assert entries[1..][1..] == entries[2..];
    assert Unwind(entries[1..]) == ["friday"];
  }

  lemma ExampleGroup()
    ensures Group(["halal", "friday", "friday"]) == [TagCount("halal", 1), TagCount("friday", 2)]
  {
    var h1, f1, f2 := TagCount("halal", 1), TagCount("friday", 1), TagCount("friday", 2);
    assert "halal" != "friday" by { assert "halal"[0] != "friday"[0]; }
    assert Group(["halal"]) == [h1] by {
      assert ["halal"][..0] == [];
    }
    assert Group(["halal", "friday"]) == [h1, f1] by {
      assert ["halal", "friday"][..1] == ["halal"];
      assert [h1][1..] == [];
      assert AddOne([h1], "friday") == [h1] + AddOne([], "friday");
    }
    var rows := ["halal", "friday", "friday"];
    assert rows[..2] == ["halal", "friday"];
    assert [h1, f1][1..] == [f1] && [f1][1..] == [];
    assert AddOne([f1], "friday") == [f2];
    assert AddOne([h1, f1], "friday") == [h1] + AddOne([f1], "friday");
  }

  lemma ExampleSort()
    ensures SortDesc([TagCount("halal", 1), TagCount("friday", 2)], CountKey) ==
            [TagCount("friday", 2), TagCount("halal", 1)]
  {
    var h1, f2 := TagCount("halal", 1), TagCount("friday", 2);
    var s := [h1, f2];
    assert s[1..] == [f2] && [f2][1..] == [];
    assert SortDesc([f2], CountKey) == [f2] by {
      assert SortDesc([f2], CountKey) == InsertDesc(f2, SortDesc([], CountKey), CountKey);
    }
    assert InsertDesc(h1, [f2], CountKey) == [f2] + InsertDesc(h1, [], CountKey);
  }
}
