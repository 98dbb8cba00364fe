/**
 * The topic list's search box and its grouping of the matching topics by
 * level.
 */
module TopicList {
  import opened Types
  import opened Text

  // ---------------------------------------------------------------------
  // Subsequences

  /** The elements of `s` whose flag in `keep` is set, in their order in `s`. */
  function Select<T>(s: seq<T>, keep: seq<bool>): seq<T>
    requires |keep| == |s|
  {
    if s == [] then []
    else Select(s[..|s| - 1], keep[..|s| - 1]) + (if keep[|s| - 1] then [s[|s| - 1]] else [])
  }

  /** `a` is `b` with some elements dropped and the rest kept in order. */
  ghost predicate IsSubsequence<T>(a: seq<T>, b: seq<T>)
  {
    exists keep :: |keep| == |b| && Select(b, keep) == a
  }

  // ---------------------------------------------------------------------
  // The search filter

  /** The search test: the term occurs in the name or the description, ignoring case. */
  predicate Matches(t: Topic, term: string): (r: bool)
    ensures term == "" ==> r
    ensures r ==> |term| <= |t.name| || |term| <= |t.description|
  {
    assert Lower("") == "";
    Contains(Lower(t.name), Lower(term)) || Contains(Lower(t.description), Lower(term))
  }

  /** `filteredTopics`: the topics that match the search term, in their order. */
  function FilterTopics(topics: seq<Topic>, term: string): (r: seq<Topic>)
    ensures |r| <= |topics|
    ensures forall t :: t in r <==> t in topics && Matches(t, term)
  {
    if topics == [] then []
    else
      var init := topics[..|topics| - 1];
      var last := topics[|topics| - 1];
      assert topics == init + [last];
      FilterTopics(init, term) + (if Matches(last, term) then [last] else [])
  }

  /** A matching topic is kept as often as it occurs; any other is dropped. */
  lemma {:induction false} FilterCount(topics: seq<Topic>, term: string, t: Topic)
    ensures multiset(FilterTopics(topics, term))[t] == if Matches(t, term) then multiset(topics)[t] else 0
  {
    if topics != [] {
      var n := |topics| - 1;
      FilterCount(topics[..n], term, t);
      assert topics == topics[..n] + [topics[n]];
    }
  }

  /** The flags of the search test, position by position. */
  function MatchFlags(topics: seq<Topic>, term: string): (keep: seq<bool>)
    ensures |keep| == |topics|
  {
    seq(|topics|, i requires 0 <= i < |topics| => Matches(topics[i], term))
  }

  /** The filtered list is a subsequence of the topics: nothing is reordered. */
  lemma {:induction false} FilterIsSubsequence(topics: seq<Topic>, term: string)
    ensures Select(topics, MatchFlags(topics, term)) == FilterTopics(topics, term)
    ensures IsSubsequence(FilterTopics(topics, term), topics)
  {
    if topics != [] {
      var n := |topics| - 1;
      FilterIsSubsequence(topics[..n], term);
      assert MatchFlags(topics, term)[..n] == MatchFlags(topics[..n], term);
    }
  }

  /** An empty search term keeps every topic. */
  lemma {:induction false} EmptyTermKeepsAll(topics: seq<Topic>)
    ensures FilterTopics(topics, "") == topics
  {
    if topics != [] {
      var n := |topics| - 1;
      EmptyTermKeepsAll(topics[..n]);
      ContainsEmpty(Lower(topics[n].name));
      assert Lower("") == "";
      assert topics[..n] + [topics[n]] == topics;
    }
  }

  // ---------------------------------------------------------------------
  // Grouping by level

  /** One step of the `reduce`: create the level's list if missing, then push. */
  function AddToGroup(acc: map<string, seq<Topic>>, t: Topic): (r: map<string, seq<Topic>>)
    ensures r.Keys == acc.Keys + {t.level}
    ensures r[t.level] == (if t.level in acc then acc[t.level] else []) + [t]
    ensures forall level :: level in acc && level != t.level ==> r[level] == acc[level]
  {
    var group := if t.level in acc then acc[t.level] else [];
    acc[t.level := group + [t]]
  }

  /** `groupedTopics`: the `reduce` over the list, left to right. */
  function Group(topics: seq<Topic>): (r: map<string, seq<Topic>>)
    ensures forall level :: level in r ==> r[level] != []
  {
    if topics == [] then map[]
    else AddToGroup(Group(topics[..|topics| - 1]), topics[|topics| - 1])
  }

  /** The topics of one level, in list order: the reference for a group. */
  function OfLevel(topics: seq<Topic>, level: string): (r: seq<Topic>)
    ensures forall t :: t in r <==> t in topics && t.level == level
  {
    if topics == [] then []
    else
      var init := topics[..|topics| - 1];
      var last := topics[|topics| - 1];
      assert topics == init + [last];
      OfLevel(init, level) + (if last.level == level then [last] else [])
  }

  /** A topic of the level is kept as often as it occurs; any other is dropped. */
  lemma {:induction false} OfLevelCount(topics: seq<Topic>, level: string, t: Topic)
    ensures multiset(OfLevel(topics, level))[t] == if t.level == level then multiset(topics)[t] else 0
  {
    if topics != [] {
      var n := |topics| - 1;
      OfLevelCount(topics[..n], level, t);
      assert topics == topics[..n] + [topics[n]];
    }
  }

  /** The set of levels that occur in the list. */
  function Levels(topics: seq<Topic>): set<string>
  {
    set t | t in topics :: t.level
  }

  /** A level that does not occur has no topics. */
  lemma {:induction false} OfLevelAbsent(topics: seq<Topic>, level: string)
    requires level !in Levels(topics)
    ensures OfLevel(topics, level) == []
  {
    if topics != [] {
      var n := |topics| - 1;
      assert topics[n] in topics;
      assert Levels(topics[..n]) <= Levels(topics) by {
        forall t | t in topics[..n] ensures t in topics {
        }
      }
      OfLevelAbsent(topics[..n], level);
    }
  }

  /**
   * The grouping is exactly the levels of the list, each mapped to the
   * topics of that level in list order.
   */
  lemma {:induction false} GroupIsByLevel(topics: seq<Topic>)
    ensures Group(topics).Keys == Levels(topics)
    ensures forall level :: level in Group(topics) ==> Group(topics)[level] == OfLevel(topics, level)
  {
    if topics != [] {
      var n := |topics| - 1;
      var init, last := topics[..n], topics[n];
      assert topics == init + [last];
      GroupIsByLevel(init);
      assert Levels(topics) == Levels(init) + {last.level};
      forall level | level in Group(topics)
        ensures Group(topics)[level] == OfLevel(topics, level)
      {
        if level != last.level {
          assert level in Group(init);
        } else if level !in Group(init) {
          OfLevelAbsent(init, level);
        }
      }
    }
  }

  /** Every topic in the group of a level has that level. */
  lemma GroupLevels(topics: seq<Topic>, level: string, t: Topic)
    requires level in Group(topics) && t in Group(topics)[level]
    ensures t.level == level
  {
    GroupIsByLevel(topics);
  }

  /**
   * Each topic lands in the group of its own level, as often as it occurs
   * in the list, and in no other group.
   */
  lemma GroupPartitions(topics: seq<Topic>, t: Topic)
    requires t in topics
    ensures t.level in Group(topics)
    ensures multiset(Group(topics)[t.level])[t] == multiset(topics)[t]
    ensures forall level :: level in Group(topics) && level != t.level ==> t !in Group(topics)[level]
  {
    GroupIsByLevel(topics);
    assert t.level in Levels(topics);
    OfLevelCount(topics, t.level, t);
  }

  /** Within each group the topics keep their relative order in the list. */
  lemma {:induction false} GroupKeepsOrder(topics: seq<Topic>, level: string)
    requires level in Group(topics)
    ensures IsSubsequence(Group(topics)[level], topics)
  {
    GroupIsByLevel(topics);
    var keep := seq(|topics|, i requires 0 <= i < |topics| => topics[i].level == level);
    OfLevelSelects(topics, level);
    assert Select(topics, keep) == Group(topics)[level];
  }

  lemma {:induction false} OfLevelSelects(topics: seq<Topic>, level: string)
    ensures Select(topics, seq(|topics|, i requires 0 <= i < |topics| => topics[i].level == level))
      == OfLevel(topics, level)
  {
    if topics != [] {
      var n := |topics| - 1;
      OfLevelSelects(topics[..n], level);
      assert seq(|topics|, i requires 0 <= i < |topics| => topics[i].level == level)[..n]
        == seq(n, i requires 0 <= i < n => topics[..n][i].level == level);
    }
  }

  /**
   * The levels in order of first occurrence: the order in which the
   * groups were created, which is the order `Object.entries` lists them.
   */
  function LevelOrder(topics: seq<Topic>): (r: seq<string>)
    ensures Distinct(r)
    ensures |r| <= |topics|
  {
    if topics == [] then []
    else
      var order := LevelOrder(topics[..|topics| - 1]);
      var level := topics[|topics| - 1].level;
      if level in order then order else order + [level]
  }

  predicate Distinct(s: seq<string>)
  {
    forall i, j :: 0 <= i < j < |s| ==> s[i] != s[j]
  }

  /** The number of topics in the groups named by `order`. */
  function SizeOver(groups: map<string, seq<Topic>>, order: seq<string>): nat
  {
    if order == [] then 0
    else (if order[0] in groups then |groups[order[0]]| else 0) + SizeOver(groups, order[1..])
  }

  /** Changing a group not named by `order` does not change the count over `order`. */
  lemma {:induction false} SizeOverOther(groups: map<string, seq<Topic>>, order: seq<string>, level: string, group: seq<Topic>)
    requires level !in order
    ensures SizeOver(groups[level := group], order) == SizeOver(groups, order)
  {
    if order != [] {
      SizeOverOther(groups, order[1..], level, group);
    }
  }

  /** Changing a group named once by `order` changes the count by its change in size. */
  lemma {:induction false} SizeOverUpdate(groups: map<string, seq<Topic>>, order: seq<string>, level: string, group: seq<Topic>)
    requires Distinct(order) && level in order && level in groups
    ensures SizeOver(groups[level := group], order) + |groups[level]| == SizeOver(groups, order) + |group|
  {
    if order[0] == level {
      assert level !in order[1..];
      SizeOverOther(groups, order[1..], level, group);
    } else {
      SizeOverUpdate(groups, order[1..], level, group);
    }
  }

  /** Appending a level to `order` adds the size of its group. */
  lemma {:induction false} SizeOverAppend(groups: map<string, seq<Topic>>, order: seq<string>, level: string)
    ensures SizeOver(groups, order + [level]) ==
      SizeOver(groups, order) + (if level in groups then |groups[level]| else 0)
  {
    if order != [] {
      assert (order + [level])[1..] == order[1..] + [level];
      SizeOverAppend(groups, order[1..], level);
    }
  }

  /**
   * The groups are listed once each, in order of creation, and their sizes
   * add up to the length of the list.
   */
  lemma {:induction false} GroupSizesSum(topics: seq<Topic>)
    ensures Distinct(LevelOrder(topics))
    ensures forall level :: level in LevelOrder(topics) <==> level in Group(topics)
    ensures SizeOver(Group(topics), LevelOrder(topics)) == |topics|
  {
    if topics != [] {
      var n := |topics| - 1;
      var init, t := topics[..n], topics[n];
      GroupSizesSum(init);
      var groups, order := Group(init), LevelOrder(init);
      var group := if t.level in groups then groups[t.level] else [];
      if t.level in order {
        SizeOverUpdate(groups, order, t.level, group + [t]);
      } else {
        SizeOverOther(groups, order, t.level, group + [t]);
        SizeOverAppend(groups[t.level := group + [t]], order, t.level);
      }
    }
  }

  /** The `reduce` loop over the filtered topics. */
  method GroupTopics(topics: seq<Topic>) returns (acc: map<string, seq<Topic>>)
    ensures acc == Group(topics)
    ensures acc.Keys == Levels(topics)
    ensures forall level :: level in acc ==> acc[level] == OfLevel(topics, level)
  {
    acc := map[];
    for i := 0 to |topics|
      invariant acc == Group(topics[..i])
    {
      var topic := topics[i];
      if topic.level !in acc {
        acc := acc[topic.level := []];
      }
      acc := acc[topic.level := acc[topic.level] + [topic]];
      assert topics[..i + 1][..i] == topics[..i];
    }
    assert topics[..|topics|] == topics;
    GroupIsByLevel(topics);
  }
}
