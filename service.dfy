/**
 * The grouping request handler: it checks the request, chooses the group
 * size, forms the groups against the stored pair history, appends the
 * recorded pairs to that history and replaces the stored groups of the
 * request's title.
 */
module Service {
  import opened Wrappers
  import opened Seqs
  import opened Pairs
  import opened Engine
  import opened GroupSize
  import opened Listing

  /** A registered user: display name, registration number (the user's id) and preferred group size. */
  datatype User = User(name: string, regNo: Id, groupSize: int)

  /** Why a grouping request is refused. */
  datatype Failure = TitleRequired | NoUsers | NonPositiveSize | Unsatisfiable

  /** The reply to an accepted request: the labelled groups and the title. */
  datatype Reply = Reply(groups: seq<seq<string>>, title: string)

  function RegNos(users: seq<User>): seq<Id>
  {
    seq(|users|, k requires 0 <= k < |users| => users[k].regNo)
  }

  function Sizes(users: seq<User>): seq<int>
  {
    seq(|users|, k requires 0 <= k < |users| => users[k].groupSize)
  }

  /** The name registered under `reg`: the first user with that number, or "" when there is none. */
  function NameOf(users: seq<User>, reg: Id): string
  {
    if |users| == 0 then ""
    else if users[0].regNo == reg then users[0].name
    else NameOf(users[1..], reg)
  }

  /** With unique registration numbers, looking a user's number up yields that user's name. */
  lemma {:induction false} NameOfRegistered(users: seq<User>, k: nat)
    requires Distinct(RegNos(users)) && k < |users|
    ensures NameOf(users, users[k].regNo) == users[k].name
  {
    if k > 0 {
      assert RegNos(users)[0] != RegNos(users)[k];
      assert RegNos(users[1..]) == RegNos(users)[1..];
      NameOfRegistered(users[1..], k - 1);
    }
  }

  /** A member's label in a reply: the name followed by the number in parentheses. */
  function Label(name: string, reg: Id): string
  {
    name + " (" + reg + ")"
  }

  /** The labels of a group's members, in member order. */
  function Shown(users: seq<User>, group: seq<Id>): seq<string>
  {
    seq(|group|, k requires 0 <= k < |group| => Label(NameOf(users, group[k]), group[k]))
  }

  function ShownGroups(users: seq<User>, groups: seq<seq<Id>>): seq<seq<string>>
  {
    seq(|groups|, m requires 0 <= m < |groups| => Shown(users, groups[m]))
  }

  /** Labels the members of one group. */
  method RenderGroup(users: seq<User>, group: seq<Id>) returns (display: seq<string>)
    ensures display == Shown(users, group)
  {
    display := [];
    var k := 0;
    while k < |group|
      invariant k <= |group|
      invariant display == Shown(users, group[..k])
    {
      assert Shown(users, group[..k + 1]) == Shown(users, group[..k]) + [Label(NameOf(users, group[k]), group[k])];
      display := display + [Label(NameOf(users, group[k]), group[k])];
      k := k + 1;
    }
    assert group[..k] == group;
  }

  /** Labels the members of every group, keeping the order of groups. */
  method RenderGroups(users: seq<User>, groups: seq<seq<Id>>) returns (shown: seq<seq<string>>)
    ensures shown == ShownGroups(users, groups)
  {
    shown := [];
    var m := 0;
    while m < |groups|
      invariant m <= |groups|
      invariant shown == ShownGroups(users, groups[..m])
    {
      var display := RenderGroup(users, groups[m]);
      assert ShownGroups(users, groups[..m + 1]) == ShownGroups(users, groups[..m]) + [display];
      shown := shown + [display];
      m := m + 1;
    }
    assert groups[..m] == groups;
  }

  /** A registered member is labelled with the name the user registered. */
  lemma ShownLabelsRegisteredName(users: seq<User>, group: seq<Id>, k: nat, u: nat)
    requires Distinct(RegNos(users)) && k < |group| && u < |users| && group[k] == users[u].regNo
    ensures Shown(users, group)[k] == Label(users[u].name, users[u].regNo)
  {
    NameOfRegistered(users, u);
  }

  /**
   * Handles a grouping request. `shuffles` supplies the random permutations
   * of the registration numbers: the first one and then one per restart.
   * Refusals leave both stores unchanged, except that running out of
   * permutations keeps the pairs the abandoned attempts recorded.
   */
  method MakeGroups(title: string, requested: int, users: seq<User>, pastPairs: seq<Pair>,
                    groupDocs: seq<GroupDoc>, shuffles: seq<seq<Id>>)
    returns (r: Result<Reply, Failure>, pastPairs': seq<Pair>, groupDocs': seq<GroupDoc>)
    ensures title == "" ==> r == Err(TitleRequired)
    ensures title != "" && users == [] ==> r == Err(NoUsers)
    ensures title != "" && users != [] && ChosenSize(Sizes(users), requested) <= 0 ==> r == Err(NonPositiveSize)
    ensures r.Err? && r.error != Unsatisfiable ==> pastPairs' == pastPairs && groupDocs' == groupDocs
    ensures title != "" && users != [] && ChosenSize(Sizes(users), requested) >= 1 ==>
              var size := ChosenSize(Sizes(users), requested);
              var used := Snapshot(pastPairs);
              var o := Outcome(shuffles, size, used, 0);
              if o.Formed? then
                r == Ok(Reply(ShownGroups(users, o.groups), title)) &&
                pastPairs' == pastPairs + LogBefore(shuffles, size, used, o.attempt + 1) &&
                groupDocs' == Without(groupDocs, title) + Numbered(title, ShownGroups(users, o.groups))
              else
                r == Err(Unsatisfiable) &&
                pastPairs' == pastPairs + LogBefore(shuffles, size, used, |shuffles|) &&
                groupDocs' == groupDocs
  {
    pastPairs', groupDocs' := pastPairs, groupDocs;
    if title == "" {
      return Err(TitleRequired), pastPairs', groupDocs';
    }
    if users == [] {
      return Err(NoUsers), pastPairs', groupDocs';
    }
    var size := ChosenSize(Sizes(users), requested);
    if size <= 0 {
      return Err(NonPositiveSize), pastPairs', groupDocs';
    }
    var formation, added := FormGroups(size, Snapshot(pastPairs), shuffles);
    pastPairs' := pastPairs + added;
    if formation.Unsatisfied? {
      return Err(Unsatisfiable), pastPairs', groupDocs';
    }
    var shown := RenderGroups(users, formation.groups);
    groupDocs' := DeleteTitle(groupDocs, title);
    groupDocs' := AddGroups(groupDocs', title, shown);
    r := Ok(Reply(shown, title));
  }

  /**
   * What an accepted request delivers, for the outcome `MakeGroups` replies
   * with: when the supplied shuffles are permutations of the registration
   * numbers, the groups partition the registered users, no group holds a
   * pair the history already knew, the returned log pairs every two members
   * of every group, and the stored documents list exactly the reply's groups
   * under the title while every other title keeps its lists.
   */
  lemma AcceptedRequest(title: string, requested: int, users: seq<User>, pastPairs: seq<Pair>,
                        groupDocs: seq<GroupDoc>, shuffles: seq<seq<Id>>, t: string)
    requires Distinct(RegNos(users))
    requires forall s :: 0 <= s < |shuffles| ==> multiset(shuffles[s]) == multiset(RegNos(users))
    requires ChosenSize(Sizes(users), requested) >= 1
    requires Outcome(shuffles, ChosenSize(Sizes(users), requested), Snapshot(pastPairs), 0).Formed?
    ensures var size := ChosenSize(Sizes(users), requested);
            var used := Snapshot(pastPairs);
            var o := Outcome(shuffles, size, used, 0);
            var docs' := Without(groupDocs, title) + Numbered(title, ShownGroups(users, o.groups));
            (forall x :: multiset(Flatten(o.groups))[x] == if x in RegNos(users) then 1 else 0) &&
            (forall m, x, y :: 0 <= m < |o.groups| && x in o.groups[m] && y in o.groups[m] && x != y ==>
               Key(x, y) !in used &&
               Key(x, y) in Snapshot(pastPairs + LogBefore(shuffles, size, used, o.attempt + 1))) &&
            MembersUnder(docs', t) == if t == title then ShownGroups(users, o.groups) else MembersUnder(groupDocs, t)
  {
    var size := ChosenSize(Sizes(users), requested);
    var used := Snapshot(pastPairs);
    FormedGroupsPartitionRoster(RegNos(users), size, used, shuffles);
    FormedPairsRecorded(pastPairs, size, used, shuffles);
    ReplacingATitle(groupDocs, title, ShownGroups(users, Outcome(shuffles, size, used, 0).groups), t);
  }
}
