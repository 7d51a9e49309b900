/**
 * The part of a KeePass database the converter touches, kept abstract: a tree
 * of named groups and a list of entries.
 *
 * Groups are listed in the order they were created. Group 0 is the root, and
 * every other group names a parent that was created before it, so the parent
 * links form a tree. A group's children are therefore listed in creation
 * order, which is the order a non-recursive search among them meets them.
 */
module KeePass {
  import opened Results

  /** A group: its name and the index of its parent. */
  datatype Group = Group(name: string, parent: nat)

  /** The index of the root group. */
  const ROOT: nat := 0

  predicate IsTree(groups: seq<Group>) {
    |groups| >= 1 && forall j :: 1 <= j < |groups| ==> groups[j].parent < j
  }

  /** Group `j` is a direct child of `parent` called `name`. */
  predicate IsChild(groups: seq<Group>, j: nat, parent: nat, name: string) {
    1 <= j < |groups| && groups[j].parent == parent && groups[j].name == name
  }

  /** Group `parent` has no children at all. */
  predicate IsLeaf(groups: seq<Group>, parent: nat) {
    forall j :: 1 <= j < |groups| ==> groups[j].parent != parent
  }

  function FindChildFrom(groups: seq<Group>, parent: nat, name: string, from: nat): (r: Option<nat>)
    requires from >= 1
    ensures r.Some? ==> from <= r.value && IsChild(groups, r.value, parent, name)
    ensures r.Some? ==> forall j: nat :: from <= j < r.value ==> !IsChild(groups, j, parent, name)
    ensures r.None? ==> forall j: nat :: from <= j ==> !IsChild(groups, j, parent, name)
    decreases |groups| - from
  {
    if from >= |groups| then None
    else if IsChild(groups, from, parent, name) then Some(from)
    else FindChildFrom(groups, parent, name, from + 1)
  }

  /** `find_groups(name=name, recursive=False, group=parent, first=True)`:
      the first direct child of `parent` called `name`, or none. */
  function FindChild(groups: seq<Group>, parent: nat, name: string): (r: Option<nat>)
    ensures r.Some? ==> IsChild(groups, r.value, parent, name)
    ensures r.Some? ==> forall j: nat :: j < r.value ==> !IsChild(groups, j, parent, name)
    ensures r.None? ==> forall j: nat :: !IsChild(groups, j, parent, name)
  {
    FindChildFrom(groups, parent, name, 1)
  }

  /** Creating groups never changes which existing child a search finds. */
  lemma FindChildExtend(groups: seq<Group>, more: seq<Group>, parent: nat, name: string)
    requires FindChild(groups, parent, name).Some?
    ensures FindChild(groups + more, parent, name) == FindChild(groups, parent, name)
  {
    var all := groups + more;
    var c := FindChild(groups, parent, name).value;
    assert IsChild(all, c, parent, name);
    var r := FindChild(all, parent, name);
    if r.value < c {
      assert all[r.value] == groups[r.value];
      assert IsChild(groups, r.value, parent, name);
    }
  }

  /** The child just appended is found when no older child has its name. */
  lemma FindChildAppended(groups: seq<Group>, parent: nat, name: string)
    requires |groups| >= 1
    requires FindChild(groups, parent, name).None?
    ensures FindChild(groups + [Group(name, parent)], parent, name) == Some(|groups|)
  {
    var all := groups + [Group(name, parent)];
    assert IsChild(all, |groups|, parent, name);
    forall j: nat | j < |groups| ensures !IsChild(all, j, parent, name) {
      assert !IsChild(groups, j, parent, name);
      assert j < 1 || all[j] == groups[j];
    }
  }

  /** The group reached from `start` by following `names` through existing
      children, when every one of them exists. */
  function Resolve(groups: seq<Group>, start: nat, names: seq<string>): Option<nat>
    decreases |names|
  {
    if names == [] then Some(start)
    else match FindChild(groups, start, names[0])
      case None => None
      case Some(child) => Resolve(groups, child, names[1..])
  }

  /** How many leading names of the path already exist, one under the other. */
  function ResolvedDepth(groups: seq<Group>, start: nat, names: seq<string>): (depth: nat)
    ensures depth <= |names|
    decreases |names|
  {
    if names == [] then 0
    else match FindChild(groups, start, names[0])
      case None => 0
      case Some(child) => 1 + ResolvedDepth(groups, child, names[1..])
  }

  /** The group walk of `add_key`: from `start`, look each name up among the
      current group's direct children and create the group when it is absent.
      Gives the groups afterwards and the group reached. */
  function Walk(groups: seq<Group>, start: nat, names: seq<string>): (r: (seq<Group>, nat))
    requires IsTree(groups) && start < |groups|
    ensures IsTree(r.0) && r.1 < |r.0|
    ensures groups <= r.0
    decreases |names|
  {
    if names == [] then (groups, start)
    else match FindChild(groups, start, names[0])
      case Some(child) => Walk(groups, child, names[1..])
      case None => Walk(groups + [Group(names[0], start)], |groups|, names[1..])
  }

  /** A path that resolves keeps resolving, to the same group, once groups are created. */
  lemma {:induction false} ResolveExtend(groups: seq<Group>, more: seq<Group>, start: nat, names: seq<string>)
    requires Resolve(groups, start, names).Some?
    ensures Resolve(groups + more, start, names) == Resolve(groups, start, names)
    decreases |names|
  {
    if names != [] {
      var child := FindChild(groups, start, names[0]).value;
      FindChildExtend(groups, more, start, names[0]);
      ResolveExtend(groups, more, child, names[1..]);
    }
  }

  /** After the walk, following the path from `start` leads to the group it returned. */
  lemma {:induction false} WalkResolves(groups: seq<Group>, start: nat, names: seq<string>)
    requires IsTree(groups) && start < |groups|
    ensures Resolve(Walk(groups, start, names).0, start, names) == Some(Walk(groups, start, names).1)
    decreases |names|
  {
    if names != [] {
      var (after, _) := Walk(groups, start, names);
      match FindChild(groups, start, names[0])
      case Some(child) =>
        WalkResolves(groups, child, names[1..]);
        FindChildExtend(groups, after[|groups|..], start, names[0]);
        assert groups + after[|groups|..] == after;
      case None =>
        var grown := groups + [Group(names[0], start)];
        WalkResolves(grown, |groups|, names[1..]);
        FindChildAppended(groups, start, names[0]);
        FindChildExtend(grown, after[|grown|..], start, names[0]);
        assert grown + after[|grown|..] == after;
    }
  }

  /** A path that already exists is walked without creating anything. */
  lemma {:induction false} WalkExisting(groups: seq<Group>, start: nat, names: seq<string>)
    requires IsTree(groups) && start < |groups|
    requires Resolve(groups, start, names).Some?
    ensures Walk(groups, start, names) == (groups, Resolve(groups, start, names).value)
    decreases |names|
  {
    if names != [] {
      var child := FindChild(groups, start, names[0]).value;
      WalkExisting(groups, child, names[1..]);
    }
  }

  /** Walking the same path a second time adds no groups and reaches the same group. */
  lemma WalkTwice(groups: seq<Group>, start: nat, names: seq<string>)
    requires IsTree(groups) && start < |groups|
    ensures var (after, reached) := Walk(groups, start, names);
      Walk(after, start, names) == (after, reached)
  {
    WalkResolves(groups, start, names);
    var (after, reached) := Walk(groups, start, names);
    assert start < |after| by { assert groups <= after; }
    WalkExisting(after, start, names);
  }

  /** The group just appended has no children. */
  lemma AppendedIsLeaf(groups: seq<Group>, name: string, parent: nat)
    requires IsTree(groups) && parent < |groups|
    ensures IsLeaf(groups + [Group(name, parent)], |groups|)
  {
    var all := groups + [Group(name, parent)];
    forall j | 1 <= j < |all| ensures all[j].parent != |groups| {
      if j < |groups| { assert all[j] == groups[j]; }
    }
  }

  /** Below a group with no children every name of the path is created. */
  lemma {:induction false} WalkBelowLeaf(groups: seq<Group>, start: nat, names: seq<string>)
    requires IsTree(groups) && start < |groups| && IsLeaf(groups, start)
    ensures |Walk(groups, start, names).0| == |groups| + |names|
    decreases |names|
  {
    if names != [] {
      assert FindChild(groups, start, names[0]).None? by {
        forall j: nat ensures !IsChild(groups, j, start, names[0]) {
          if 1 <= j < |groups| { assert groups[j].parent != start; }
        }
      }
      AppendedIsLeaf(groups, names[0], start);
      WalkBelowLeaf(groups + [Group(names[0], start)], |groups|, names[1..]);
    }
  }

  /** The walk creates exactly the groups of the path that are missing: one per
      name after the longest prefix that already exists. */
  lemma {:induction false} WalkCreatesMissing(groups: seq<Group>, start: nat, names: seq<string>)
    requires IsTree(groups) && start < |groups|
    ensures |Walk(groups, start, names).0| == |groups| + |names| - ResolvedDepth(groups, start, names)
    decreases |names|
  {
    if names != [] {
      match FindChild(groups, start, names[0])
      case Some(child) =>
        WalkCreatesMissing(groups, child, names[1..]);
      case None =>
        AppendedIsLeaf(groups, names[0], start);
        WalkBelowLeaf(groups + [Group(names[0], start)], |groups|, names[1..]);
    }
  }

  /** An entry of the database; `add_entry` creates it and the converter then sets
      its url, notes and custom properties. */
  class Entry {
    var group: nat
    var title: string
    var username: string
    var password: string
    var url: string
    var notes: string
    var customProperties: map<string, string>

    constructor (group: nat, title: string, username: string, password: string)
      ensures this.group == group && this.title == title
      ensures this.username == username && this.password == password
      ensures url == "" && notes == "" && customProperties == map[]
    {
      this.group := group;
      this.title := title;
      this.username := username;
      this.password := password;
      url := "";
      notes := "";
      customProperties := map[];
    }

    /** `set_custom_property(key, value)`. */
    method SetCustomProperty(key: string, value: string)
      modifies this
      ensures customProperties == old(customProperties)[key := value]
      ensures group == old(group) && title == old(title)
      ensures username == old(username) && password == old(password)
      ensures url == old(url) && notes == old(notes)
    {
      customProperties := customProperties[key := value];
    }
  }

  /** The database: its group tree and its entries. */
  class Database {
    var groups: seq<Group>
    var entries: seq<Entry>

    predicate Valid()
      reads this
    {
      IsTree(groups)
    }

    /** An empty database: only the root group. */
    constructor (rootName: string)
      ensures Valid()
      ensures groups == [Group(rootName, ROOT)] && entries == []
    {
      groups := [Group(rootName, ROOT)];
      entries := [];
    }

    /** `add_group(destination_group=parent, group_name=name)`. */
    method AddGroup(parent: nat, name: string) returns (group: nat)
      requires Valid() && parent < |groups|
      modifies this
      ensures Valid()
      ensures groups == old(groups) + [Group(name, parent)] && group == |old(groups)|
      ensures entries == old(entries)
    {
      group := |groups|;
      groups := groups + [Group(name, parent)];
    }

    /** `add_entry(group, title, username, password)`. */
    method AddEntry(group: nat, title: string, username: string, password: string) returns (entry: Entry)
      modifies this
      ensures fresh(entry)
      ensures entries == old(entries) + [entry] && groups == old(groups)
      ensures entry.group == group && entry.title == title
      ensures entry.username == username && entry.password == password
      ensures entry.url == "" && entry.notes == "" && entry.customProperties == map[]
    {
      entry := new Entry(group, title, username, password);
      entries := entries + [entry];
    }
  }
}
