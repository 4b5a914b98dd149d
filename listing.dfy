/**
 * The stored group documents, the listing that regroups them by title, and
 * the two store updates a grouping round performs on them: clearing the
 * documents of a title and adding the new, numbered groups.
 */
module Listing {
  import opened Seqs

  /** One stored group document: its title, its number within the title, and its member labels. */
  datatype GroupDoc = GroupDoc(title: string, groupNo: int, members: seq<string>)

  /** One entry of the listing: a title and the member lists stored under it. */
  datatype TitleGroups = TitleGroups(title: string, groups: seq<seq<string>>)

  /** The titles of `docs`, each once, in order of first appearance. */
  function TitlesInOrder(docs: seq<GroupDoc>): seq<string>
  {
    if |docs| == 0 then []
    else
      var earlier := TitlesInOrder(docs[..|docs| - 1]);
      var t := docs[|docs| - 1].title;
      if t in earlier then earlier else earlier + [t]
  }

  /** The member lists of the documents titled `t`, in stream order. */
  function MembersUnder(docs: seq<GroupDoc>, t: string): seq<seq<string>>
  {
    if |docs| == 0 then []
    else
      var d := docs[|docs| - 1];
      MembersUnder(docs[..|docs| - 1], t) + (if d.title == t then [d.members] else [])
  }

  /** One entry per title of `ts`, holding the member lists stored under that title. */
  function Entries(docs: seq<GroupDoc>, ts: seq<string>): seq<TitleGroups>
  {
    seq(|ts|, n requires 0 <= n < |ts| => TitleGroups(ts[n], MembersUnder(docs, ts[n])))
  }

  /** The listing: one entry per title, titles in order of first appearance. */
  function Listing(docs: seq<GroupDoc>): seq<TitleGroups>
  {
    Entries(docs, TitlesInOrder(docs))
  }

  /** Regroups the stored documents by title, keeping titles in insertion order. */
  method GetGroups(docs: seq<GroupDoc>) returns (listing: seq<TitleGroups>)
    ensures listing == Listing(docs)
  {
    var grouped: map<string, seq<seq<string>>> := map[];
    var order: seq<string> := [];
    var i := 0;
    while i < |docs|
      invariant i <= |docs|
      invariant order == TitlesInOrder(docs[..i])
      invariant forall t :: t in grouped <==> t in order
      invariant forall t :: t in grouped ==> grouped[t] == MembersUnder(docs[..i], t)
    {
      var d := docs[i];
      assert docs[..i + 1][..i] == docs[..i];
      if d.title in grouped {
        grouped := grouped[d.title := grouped[d.title] + [d.members]];
      } else {
        AbsentTitleHasNoMembers(docs[..i], d.title);
        grouped := grouped[d.title := [d.members]];
        order := order + [d.title];
      }
      i := i + 1;
    }
    assert docs[..i] == docs;
    listing := [];
    var n := 0;
    while n < |order|
      invariant n <= |order|
      invariant listing == Entries(docs, order[..n])
    {
      assert order[..n + 1] == order[..n] + [order[n]];
      listing := listing + [TitleGroups(order[n], grouped[order[n]])];
      n := n + 1;
    }
    assert order[..n] == order;
  }

  /** A title that is not listed has no member lists. */
  lemma {:induction false} AbsentTitleHasNoMembers(docs: seq<GroupDoc>, t: string)
    ensures MembersUnder(docs, t) == [] <==> t !in TitlesInOrder(docs)
  {
    if |docs| > 0 {
      AbsentTitleHasNoMembers(docs[..|docs| - 1], t);
    }
  }

  /** Every title is listed once. */
  lemma {:induction false} TitlesDistinct(docs: seq<GroupDoc>)
    ensures Distinct(TitlesInOrder(docs))
  {
    if |docs| > 0 {
      TitlesDistinct(docs[..|docs| - 1]);
    }
  }

  /** A title is listed exactly when some document carries it. */
  lemma {:induction false} TitleListedIff(docs: seq<GroupDoc>, t: string)
    ensures t in TitlesInOrder(docs) <==> exists i :: 0 <= i < |docs| && docs[i].title == t
  {
    if |docs| > 0 {
      var p := docs[..|docs| - 1];
      TitleListedIff(p, t);
      if t in TitlesInOrder(p) {
        var i :| 0 <= i < |p| && p[i].title == t;
        assert docs[i].title == t;
      }
      if exists i :: 0 <= i < |docs| && docs[i].title == t {
        var i :| 0 <= i < |docs| && docs[i].title == t;
        if i < |p| {
          assert p[i].title == t;
        }
      }
    }
  }

  /**
   * First-appearance order: the titles of any prefix of the stream are a
   * prefix of the titles of the whole stream, so a title that appears
   * earlier is listed earlier.
   */
  lemma {:induction false} TitlesPrefixStable(docs: seq<GroupDoc>, k: nat)
    requires k <= |docs|
    ensures TitlesInOrder(docs[..k]) <= TitlesInOrder(docs)
  {
    if k < |docs| {
      var p := docs[..|docs| - 1];
      assert p[..k] == docs[..k];
      TitlesPrefixStable(p, k);
    } else {
      assert docs[..k] == docs;
    }
  }

  /** The member lists of a title in a concatenated stream are those of each part, in order. */
  lemma {:induction false} MembersUnderAppend(a: seq<GroupDoc>, b: seq<GroupDoc>, t: string)
    ensures MembersUnder(a + b, t) == MembersUnder(a, t) + MembersUnder(b, t)
  {
    if |b| == 0 {
      assert a + b == a;
    } else {
      assert (a + b)[..|a + b| - 1] == a + b[..|b| - 1];
      MembersUnderAppend(a, b[..|b| - 1], t);
    }
  }

  /** The total number of member lists in a listing. */
  function TotalLists(listing: seq<TitleGroups>): nat
  {
    if |listing| == 0 then 0
    else TotalLists(listing[..|listing| - 1]) + |listing[|listing| - 1].groups|
  }

  /** Adding one document adds one member list to its own title and none to any other. */
  lemma {:induction false} AddOneDoc(docs: seq<GroupDoc>, d: GroupDoc, ts: seq<string>)
    requires Distinct(ts)
    ensures TotalLists(Entries(docs + [d], ts)) == TotalLists(Entries(docs, ts)) + (if d.title in ts then 1 else 0)
  {
    assert (docs + [d])[..|docs|] == docs;
    if |ts| > 0 {
      var p := ts[..|ts| - 1];
      assert Entries(docs + [d], ts)[..|ts| - 1] == Entries(docs + [d], p);
      assert Entries(docs, ts)[..|ts| - 1] == Entries(docs, p);
      AddOneDoc(docs, d, p);
      assert d.title in ts <==> d.title in p || d.title == ts[|ts| - 1];
      if d.title == ts[|ts| - 1] {
        assert d.title !in p;
      }
    }
  }

  /** The listing holds exactly as many member lists as there are documents. */
  lemma {:induction false} ListingCountsEveryDoc(docs: seq<GroupDoc>)
    ensures TotalLists(Listing(docs)) == |docs|
  {
    if |docs| > 0 {
      var p := docs[..|docs| - 1];
      var d := docs[|docs| - 1];
      var ts := TitlesInOrder(p);
      assert p + [d] == docs;
      ListingCountsEveryDoc(p);
      TitlesDistinct(p);
      AddOneDoc(p, d, ts);
      if d.title !in ts {
        var all := ts + [d.title];
        assert Entries(docs, all)[..|ts|] == Entries(docs, ts);
        AbsentTitleHasNoMembers(p, d.title);
      }
    }
  }

  /** The documents not titled `title`, in their order. */
  function Without(docs: seq<GroupDoc>, title: string): (kept: seq<GroupDoc>)
    ensures forall d :: d in kept <==> d in docs && d.title != title
  {
    if |docs| == 0 then []
    else
      var d := docs[|docs| - 1];
      Without(docs[..|docs| - 1], title) + (if d.title == title then [] else [d])
  }

  /** The documents for `groups` under `title`, numbered 1, 2, ... in order. */
  function Numbered(title: string, groups: seq<seq<string>>): seq<GroupDoc>
  {
    seq(|groups|, k requires 0 <= k < |groups| => GroupDoc(title, k + 1, groups[k]))
  }

  /** Deletes every document titled `title`. */
  method DeleteTitle(docs: seq<GroupDoc>, title: string) returns (kept: seq<GroupDoc>)
    ensures kept == Without(docs, title)
  {
    kept := [];
    var i := 0;
    while i < |docs|
      invariant i <= |docs|
      invariant kept == Without(docs[..i], title)
    {
      assert docs[..i + 1][..i] == docs[..i];
      if docs[i].title != title {
        kept := kept + [docs[i]];
      }
      i := i + 1;
    }
    assert docs[..i] == docs;
  }

  /** Adds one document per group under `title`, numbering them from 1. */
  method AddGroups(docs: seq<GroupDoc>, title: string, groups: seq<seq<string>>) returns (docs': seq<GroupDoc>)
    ensures docs' == docs + Numbered(title, groups)
  {
    docs' := docs;
    var idx := 1;
    while idx <= |groups|
      invariant 1 <= idx <= |groups| + 1
      invariant docs' == docs + Numbered(title, groups[..idx - 1])
    {
      assert Numbered(title, groups[..idx]) == Numbered(title, groups[..idx - 1]) + [GroupDoc(title, idx, groups[idx - 1])];
      docs' := docs' + [GroupDoc(title, idx, groups[idx - 1])];
      idx := idx + 1;
    }
    assert groups[..idx - 1] == groups;
  }

  /** Member lists stored under `t` once a title's documents are removed. */
  lemma {:induction false} MembersWithout(docs: seq<GroupDoc>, title: string, t: string)
    ensures MembersUnder(Without(docs, title), t) == if t == title then [] else MembersUnder(docs, t)
  {
    if |docs| > 0 {
      var p := docs[..|docs| - 1];
      var d := docs[|docs| - 1];
      MembersWithout(p, title, t);
      MembersUnderAppend(Without(p, title), if d.title == title then [] else [d], t);
      if d.title != title {
        assert MembersUnder([d], t) == MembersUnder([], t) + (if d.title == t then [d.members] else []);
      }
    }
  }

  /** Member lists stored under `t` in a run of freshly numbered documents. */
  lemma {:induction false} MembersNumbered(title: string, groups: seq<seq<string>>, t: string)
    ensures MembersUnder(Numbered(title, groups), t) == if t == title then groups else []
  {
    if |groups| > 0 {
      var p := groups[..|groups| - 1];
      assert Numbered(title, groups)[..|groups| - 1] == Numbered(title, p);
      MembersNumbered(title, p, t);
      if t == title {
        assert p + [groups[|groups| - 1]] == groups;
      }
    }
  }

  /**
   * After a title's documents are cleared and the new groups added, that
   * title lists exactly the new groups and every other title keeps its lists.
   */
  lemma ReplacingATitle(docs: seq<GroupDoc>, title: string, groups: seq<seq<string>>, t: string)
    ensures MembersUnder(Without(docs, title) + Numbered(title, groups), t)
         == if t == title then groups else MembersUnder(docs, t)
  {
    MembersUnderAppend(Without(docs, title), Numbered(title, groups), t);
    MembersWithout(docs, title, t);
    MembersNumbered(title, groups, t);
  }
}
