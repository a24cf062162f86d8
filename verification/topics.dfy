/**
 * The topic registry: a fixed, ordered list of named topics with a
 * `removed` flag.  Removal is a flag, never a deletion, so the legend and
 * the history can always refer to the full original list.
 */
module Topics {
  import opened Wrappers

  datatype Topic = Topic(name: string, removed: bool)

  /** The wheel's configuration at start-up: five topics, none removed. */
  const InitialTopics: seq<Topic> := [
    Topic("AI", false),
    Topic("Cybersecurity", false),
    Topic("C programming", false),
    Topic("Cloud computing", false),
    Topic("Browsers", false)
  ]

  predicate UniqueNames(ts: seq<Topic>) {
    forall i, j :: 0 <= i < j < |ts| ==> ts[i].name != ts[j].name
  }

  /** Some topic still on the wheel carries this name. */
  predicate IsActiveName(ts: seq<Topic>, name: string) {
    exists i :: 0 <= i < |ts| && ts[i].name == name && !ts[i].removed
  }

  /** Some topic already taken off the wheel carries this name. */
  predicate IsRemovedName(ts: seq<Topic>, name: string) {
    exists i :: 0 <= i < |ts| && ts[i].name == name && ts[i].removed
  }

  /** `getActiveTopics`: the topics not yet removed, as an order-preserving filter. */
  function Active(ts: seq<Topic>): (r: seq<Topic>)
    ensures |r| <= |ts|
    ensures forall k :: 0 <= k < |r| ==> !r[k].removed
    decreases |ts|
  {
    if |ts| == 0 then []
    else
      var init := ts[..|ts| - 1];
      var last := ts[|ts| - 1];
      Active(init) + (if last.removed then [] else [last])
  }

  /** A topic is in the active list exactly when it is in the registry and not removed. */
  lemma {:induction false} ActiveMembers(ts: seq<Topic>)
    ensures forall t :: t in Active(ts) <==> t in ts && !t.removed
    decreases |ts|
  {
    if |ts| > 0 {
      var init := ts[..|ts| - 1];
      ActiveMembers(init);
      assert ts == init + [ts[|ts| - 1]];
    }
  }

  /** Where the topic at index `i` lands in the active list: the number of active topics before it. */
  function Rank(ts: seq<Topic>, i: nat): nat
    requires i <= |ts|
  {
    |Active(ts[..i])|
  }

  /** The active list of a prefix is a prefix of the active list. */
  lemma {:induction false} ActivePrefix(ts: seq<Topic>, i: nat)
    requires i <= |ts|
    ensures Active(ts[..i]) <= Active(ts)
    decreases |ts| - i
  {
    if i < |ts| {
      ActivePrefix(ts, i + 1);
      assert ts[..i + 1][..i] == ts[..i];
    } else {
      assert ts[..i] == ts;
    }
  }

  /** Every active topic appears in the active list, at its rank. */
  lemma ActiveAtRank(ts: seq<Topic>, i: nat)
    requires i < |ts| && !ts[i].removed
    ensures Rank(ts, i) < |Active(ts)|
    ensures Active(ts)[Rank(ts, i)] == ts[i]
  {
    ActiveStep(ts, i);
    ActivePrefix(ts, i + 1);
    var p := Active(ts[..i + 1]);
    assert p[Rank(ts, i)] == ts[i];
    assert p <= Active(ts);
  }

  /** Extending a prefix by one active topic appends it to the prefix's active list. */
  lemma ActiveStep(ts: seq<Topic>, i: nat)
    requires i < |ts|
    ensures Active(ts[..i + 1]) == Active(ts[..i]) + (if ts[i].removed then [] else [ts[i]])
  {
    assert ts[..i + 1][..i] == ts[..i];
  }

  /** Ranks never decrease along the list. */
  lemma {:induction false} RankMonotone(ts: seq<Topic>, i: nat, j: nat)
    requires i <= j <= |ts|
    ensures Rank(ts, i) <= Rank(ts, j)
    decreases j - i
  {
    if i < j {
      RankMonotone(ts, i, j - 1);
      ActiveStep(ts, j - 1);
      assert Rank(ts, j - 1) <= Rank(ts, j);
    }
  }

  /**
   * The active list keeps the registry's order: two active topics appear in
   * it at distinct positions, in the order they have in the registry.
   */
  lemma ActiveKeepsOrder(ts: seq<Topic>, i: nat, j: nat)
    requires i < j < |ts|
    requires !ts[i].removed && !ts[j].removed
    ensures Rank(ts, i) < Rank(ts, j) < |Active(ts)|
    ensures Active(ts)[Rank(ts, i)] == ts[i]
    ensures Active(ts)[Rank(ts, j)] == ts[j]
  {
    ActiveAtRank(ts, i);
    ActiveAtRank(ts, j);
    RankMonotone(ts, i + 1, j);
    ActiveStep(ts, i);
  }

  /** The active list is empty exactly when every topic is removed. */
  lemma ActiveEmpty(ts: seq<Topic>)
    ensures |Active(ts)| == 0 <==> forall i :: 0 <= i < |ts| ==> ts[i].removed
  {
  }

  /** When nothing is removed, the active list is the whole registry, in order. */
  lemma {:induction false} AllActive(ts: seq<Topic>)
    requires forall i :: 0 <= i < |ts| ==> !ts[i].removed
    ensures Active(ts) == ts
    decreases |ts|
  {
    if |ts| > 0 {
      AllActive(ts[..|ts| - 1]);
      assert ts == ts[..|ts| - 1] + [ts[|ts| - 1]];
    }
  }

  /** `topics.find(t => t.name === name)`: the first topic with that name, if any. */
  function FindIndex(ts: seq<Topic>, name: string): (r: Option<nat>)
    ensures r.Some? ==> r.value < |ts| && ts[r.value].name == name
    ensures r.Some? ==> forall i :: 0 <= i < r.value ==> ts[i].name != name
    ensures r.None? ==> forall i :: 0 <= i < |ts| ==> ts[i].name != name
  {
    if |ts| == 0 then None
    else if ts[0].name == name then Some(0)
    else
      match FindIndex(ts[1..], name)
      case None => None
      case Some(j) => Some(j + 1)
  }

  /**
   * The commit's `find` then `removed = true`: flag the first topic with the
   * name; when there is none the registry is left as it is.
   */
  function MarkRemoved(ts: seq<Topic>, name: string): (r: seq<Topic>)
    ensures |r| == |ts|
    ensures forall i :: 0 <= i < |ts| ==> r[i].name == ts[i].name
    ensures forall i :: 0 <= i < |ts| ==>
      r[i].removed == (ts[i].removed || (ts[i].name == name && forall k :: 0 <= k < i ==> ts[k].name != name))
    ensures (forall i :: 0 <= i < |ts| ==> ts[i].name != name) ==> r == ts
  {
    match FindIndex(ts, name)
    case None => ts
    case Some(j) => ts[j := ts[j].(removed := true)]
  }

  /** With unique names, exactly the topic with the given name is flagged and no other flag changes. */
  lemma MarkRemovedUnique(ts: seq<Topic>, name: string)
    ensures UniqueNames(ts) ==> forall i :: 0 <= i < |ts| ==>
      MarkRemoved(ts, name)[i].removed == (ts[i].removed || ts[i].name == name)
  {
  }

  /** Flagging one active topic shortens the active list by exactly one. */
  lemma {:induction false} RemoveOneActive(ts: seq<Topic>, j: nat)
    requires j < |ts| && !ts[j].removed
    ensures |Active(ts[j := ts[j].(removed := true)])| == |Active(ts)| - 1
    decreases |ts|
  {
    var ts' := ts[j := ts[j].(removed := true)];
    var n := |ts|;
    assert ts'[..n - 1] == if j == n - 1 then ts[..n - 1] else ts[..n - 1][j := ts[j].(removed := true)];
    if j < n - 1 {
      RemoveOneActive(ts[..n - 1], j);
    }
  }

  /** The commit removes exactly one active topic when the chosen name is active and names are unique. */
  lemma MarkRemovedActiveCount(ts: seq<Topic>, name: string)
    requires UniqueNames(ts) && IsActiveName(ts, name)
    ensures |Active(MarkRemoved(ts, name))| == |Active(ts)| - 1
  {
    var i :| 0 <= i < |ts| && ts[i].name == name && !ts[i].removed;
    assert FindIndex(ts, name) == Some(i);
    RemoveOneActive(ts, i);
  }
}
