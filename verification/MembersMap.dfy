/**
 The name index of an object: next to the array of members, a multimap from
 names to positions, and for each member the map node that belongs to it.
 */
module MembersMaps {
  import opened Json

  /** A node of the multimap; an iterator is the number of its node. */
  datatype Node = Node(name: string, slot: nat)

  type Index = map<nat, Node>

  /** Iterator `i` is that of the node for member `i`, and there are no other nodes. */
  ghost predicate Indexed(index: Index, ms: seq<Member>, its: seq<nat>) {
    && |its| == |ms|
    && (forall i :: 0 <= i < |ms| ==> its[i] in index && index[its[i]] == Node(ms[i].name, i))
    && (forall k :: k in index ==> k in its)
  }

  lemma AddIndexed(index: Index, ms: seq<Member>, its: seq<nat>, k: nat, m: Member)
    requires Indexed(index, ms, its) && k !in index
    ensures Indexed(index[k := Node(m.name, |ms|)], ms + [m], its + [k])
  {
    assert forall q :: q in its ==> q in its + [k];
  }

  /** What `DoRemoveMember` leaves of a sequence: the last item takes the place of the removed one. */
  function Removed<T>(s: seq<T>, i: nat): (r: seq<T>)
    requires i < |s|
    ensures |r| == |s| - 1
  {
    if i == |s| - 1 then s[..i] else s[..|s| - 1][i := s[|s| - 1]]
  }

  lemma RemoveIndexed(index: Index, ms: seq<Member>, its: seq<nat>, i: nat)
    requires Indexed(index, ms, its) && i < |ms|
    ensures var n := |ms| - 1;
            var erased := index - {its[i]};
            var moved := if i == n then erased else erased[its[n] := Node(ms[n].name, i)];
            Indexed(moved, Removed(ms, i), Removed(its, i))
  {
    var n := |ms| - 1;
    var erased := index - {its[i]};
    var moved := if i == n then erased else erased[its[n] := Node(ms[n].name, i)];
    forall k | k in moved
      ensures k in Removed(its, i)
    {
      var j :| 0 <= j < |its| && its[j] == k;
      if j == n {
        assert Removed(its, i)[i] == k;
      } else {
        assert Removed(its, i)[j] == k;
      }
    }
  }

  /** The nodes while a range is erased: those from `first` to `last` are gone and those before `next` have moved down. */
  ghost predicate Erasing(index: Index, ms: seq<Member>, its: seq<nat>, first: nat, last: nat, next: nat) {
    && |its| == |ms| && first <= last <= next <= |ms|
    && (forall i :: 0 <= i < first || next <= i < |ms| ==> its[i] in index && index[its[i]] == Node(ms[i].name, i))
    && (forall i :: last <= i < next ==> its[i] in index && index[its[i]] == Node(ms[i].name, i - (last - first)))
    && (forall k :: k in index ==> k in its)
    && (forall i :: first <= i < last ==> its[i] !in index)
  }

  /** The items that are left when those from `first` to `last` are erased. */
  function Kept<T>(s: seq<T>, first: nat, last: nat): (r: seq<T>)
    requires first <= last <= |s|
    ensures |r| == |s| - (last - first)
  {
    s[..first] + s[last..]
  }

  lemma EraseNext(index: Index, ms: seq<Member>, its: seq<nat>, first: nat, last: nat, next: nat)
    requires Erasing(index, ms, its, first, last, next) && next < |ms| && first < last
    requires forall i, j :: 0 <= i < j < |its| ==> its[i] != its[j]
    ensures Erasing(index[its[next] := Node(index[its[next]].name, next - (last - first))], ms, its, first, last, next + 1)
  {
  }

  lemma EraseIndexed(index: Index, ms: seq<Member>, its: seq<nat>, first: nat, last: nat)
    requires Erasing(index, ms, its, first, last, |ms|)
    ensures Indexed(index, Kept(ms, first, last), Kept(its, first, last))
  {
    var left, kept := Kept(its, first, last), Kept(ms, first, last);
    forall i | 0 <= i < |kept|
      ensures left[i] in index && index[left[i]] == Node(kept[i].name, i)
    {
      var j := if i < first then i else i + (last - first);
      assert left[i] == its[j] && kept[i] == ms[j];
    }
    forall k | k in index
      ensures k in left
    {
      var j :| 0 <= j < |its| && its[j] == k;
      assert left[if j < first then j else j - (last - first)] == k;
    }
  }

  /** No two members have the same name. */
  ghost predicate DistinctNames(ms: seq<Member>) {
    forall i, j :: 0 <= i < j < |ms| ==> ms[i].name != ms[j].name
  }

  /** Looking up a name in the index gives the member that the linear search gives, if names are distinct. */
  lemma LookupIsSearch(index: Index, ms: seq<Member>, its: seq<nat>, name: string, k: nat)
    requires Indexed(index, ms, its) && DistinctNames(ms) && k in index && index[k].name == name
    ensures index[k].slot == FindMember(ms, name)
  {
    var j :| 0 <= j < |its| && its[j] == k;
    FirstIs(ms, name, j);
  }

  lemma NoNodeNoMember(index: Index, ms: seq<Member>, its: seq<nat>, name: string)
    requires Indexed(index, ms, its) && forall k :: k in index ==> index[k].name != name
    ensures FindMember(ms, name) == |ms|
  {
    assert forall i :: 0 <= i < |ms| ==> index[its[i]].name == ms[i].name;
    FirstIs(ms, name, |ms|);
  }

  // ----- The class -----

  class ObjectData {
    var members: array<Member>
    var iterators: array<nat>
    var size: nat
    var index: Index
    /** The number of the next node of the map. */
    var nextNode: nat

    ghost predicate Valid()
      reads this, members, iterators
    {
      && members.Length == iterators.Length && size <= members.Length
      && Indexed(index, members[..size], iterators[..size])
      && forall k :: k in index ==> k < nextNode
    }

    ghost function Contents(): seq<Member>
      requires size <= members.Length
      reads this, members
    {
      members[..size]
    }

    constructor (capacity: nat)
      ensures Valid() && Contents() == [] && members.Length == capacity && fresh(members) && fresh(iterators)
    {
      members := new Member[capacity](_ => Member("", Null));
      iterators := new nat[capacity](_ => 0);
      size, index, nextNode := 0, map[], 0;
    }

    /** `DoReserveMembers`: larger arrays, with the members and the iterators moved. */
    method Reserve(newCapacity: nat)
      requires Valid()
      modifies this`members, this`iterators
      ensures Valid() && Contents() == old(Contents()) && iterators[..size] == old(iterators[..size])
      ensures members.Length >= newCapacity
      ensures members.Length > old(members.Length) ==> fresh(members) && fresh(iterators)
      ensures members == old(members) || fresh(members)
      ensures iterators == old(iterators) || fresh(iterators)
    {
      hide Indexed;
      ghost var ms, its := members[..size], iterators[..size];
      assert Indexed(index, ms, its);
      if newCapacity > members.Length {
        var newMembers := new Member[newCapacity](_ => Member("", Null));
        var newIterators := new nat[newCapacity](_ => 0);
        forall k | 0 <= k < size {
          newMembers[k] := members[k];
        }
        assert newMembers[..size] == ms;
        var count := size;
        while count > 0
          invariant 0 <= count <= size
          invariant newIterators[count..size] == its[count..]
          modifies newIterators
        {
          count := count - 1;
          newIterators[count] := iterators[count];
          assert newIterators[count..size] == [newIterators[count]] + newIterators[count + 1..size];
          assert its[count..] == [its[count]] + its[count + 1..];
        }
        assert newIterators[..size] == newIterators[0..size] == its;
        members, iterators := newMembers, newIterators;
      }
      assert Contents() == ms && iterators[..size] == its;
    }

    /** A member, its node and its iterator at the end. */
    method Append(m: Member)
      requires Valid() && size < members.Length
      modifies this`size, this`index, this`nextNode, members, iterators
      ensures Valid() && Contents() == old(Contents()) + [m]
    {
      hide Indexed;
      ghost var ms, its := members[..size], iterators[..size];
      AddIndexed(index, ms, its, nextNode, m);
      members[size] := m;
      index := index[nextNode := Node(m.name, size)];
      iterators[size] := nextNode;
      nextNode := nextNode + 1;
      size := size + 1;
      assert members[..size] == ms + [m] && iterators[..size] == its + [nextNode - 1];
    }

    /** `DoAddMember`. */
    method AddMember(m: Member)
      requires Valid()
      modifies this, members, iterators
      ensures Valid() && Contents() == old(Contents()) + [m]
      ensures members == old(members) || fresh(members)
      ensures iterators == old(iterators) || fresh(iterators)
    {
      hide Indexed;
      if size >= members.Length {
        Reserve(if members.Length > 0 then members.Length + (members.Length + 1) / 2 else 16);
      }
      Append(m);
    }

    /** `DoFindMember`: any node of that name leads to a member. */
    method Find(name: string) returns (position: nat)
      requires Valid()
      ensures position <= size
      ensures if position < size then members[position].name == name else forall k :: 0 <= k < size ==> members[k].name != name
      ensures DistinctNames(Contents()) ==> position == FindMember(Contents(), name)
    {
      if k :| k in index && index[k].name == name {
        var j :| 0 <= j < size && iterators[..size][j] == k;
        position := index[k].slot;
        if DistinctNames(Contents()) {
          LookupIsSearch(index, Contents(), iterators[..size], name, k);
        }
      } else {
        position := size;
        NoNodeNoMember(index, Contents(), iterators[..size], name);
        assert forall k :: 0 <= k < size ==> Contents()[k] == members[k];
      }
    }

    /** `DoRemoveMember`: the last member takes the place of the removed one. */
    method RemoveMember(position: nat)
      requires Valid() && position < size
      modifies this`size, this`index, members, iterators
      ensures Valid() && Contents() == Removed(old(Contents()), position)
    {
      hide Indexed;
      ghost var ms, its := members[..size], iterators[..size];
      LastHasNode(index, ms, its, position);
      RemoveIndexed(index, ms, its, position);
      index := index - {iterators[position]};
      var last := size - 1;
      if size > 1 && position != last {
        iterators[position] := iterators[last];
        index := index[iterators[position] := index[iterators[position]].(slot := position)];
        members[position] := members[last];
      }
      size := size - 1;
      assert members[..size] == Removed(ms, position) && iterators[..size] == Removed(its, position);
    }

    /** The first loop of `DoEraseMembers`: the nodes of the range are erased. */
    method EraseNodes(first: nat, last: nat)
      requires Valid() && first <= last <= size
      modifies this`index
      ensures index == old(index) - Items(iterators[first..last])
    {
      hide Indexed;
      var i := first;
      while i < last
        invariant first <= i <= last
        invariant index == old(index) - Items(iterators[first..i])
      {
        assert iterators[first..i + 1] == iterators[first..i] + [iterators[i]];
        ItemsAppend(iterators[first..i], iterators[i]);
        index := index - {iterators[i]};
        i := i + 1;
      }
    }

    /** A member and its node move from one position to another. */
    method MoveItem(position: nat, next: nat)
      requires members.Length == iterators.Length && position < next < members.Length && iterators[next] in index
      modifies this`index, members, iterators
      ensures members[..] == old(members[..])[position := old(members[next])]
      ensures iterators[..] == old(iterators[..])[position := old(iterators[next])]
      ensures index == old(index[iterators[next] := index[iterators[next]].(slot := position)])
    {
      members[position] := members[next];
      iterators[position] := iterators[next];
      index := index[iterators[position] := index[iterators[position]].(slot := position)];
    }

    /** The second loop of `DoEraseMembers`: the members after the range and their nodes move down. */
    method MoveDown(first: nat, last: nat)
      requires members.Length == iterators.Length && first < last <= size <= members.Length
      requires Erasing(index, members[..size], iterators[..size], first, last, last)
      requires forall i, j :: 0 <= i < j < size ==> iterators[i] != iterators[j]
      requires forall k :: k in index ==> k < nextNode
      modifies this`index, members, iterators
      ensures members[..size - (last - first)] == old(Kept(members[..size], first, last))
      ensures iterators[..size - (last - first)] == old(Kept(iterators[..size], first, last))
      ensures Indexed(index, members[..size - (last - first)], iterators[..size - (last - first)])
      ensures forall k :: k in index ==> k < nextNode
    {
      hide Erasing, Indexed;
      ghost var ms, its := members[..size], iterators[..size];
      var position, next := first, last;
      Unmoved(ms, first, last);
      Unmoved(its, first, last);
      while next < size
        invariant first <= position <= next <= size && next - position == last - first
        invariant Erasing(index, ms, its, first, last, next)
        invariant Moved(members[..size], ms, first, last, next) && Moved(iterators[..size], its, first, last, next)
        invariant forall k :: k in index ==> k < nextNode
      {
        EraseNext(index, ms, its, first, last, next);
        ErasingHas(index, ms, its, first, last, next);
        ghost var x, y := members[..size], iterators[..size];
        assert x[next] == members[next] && y[next] == iterators[next];
        MovedNext(x, ms, first, last, next);
        MovedNext(y, its, first, last, next);
        MoveItem(position, next);
        assert members[..size] == x[position := x[next]] && iterators[..size] == y[position := y[next]];
        position, next := position + 1, next + 1;
      }
      EraseIndexed(index, ms, its, first, last);
      MovedAll(members[..size], ms, first, last);
      MovedAll(iterators[..size], its, first, last);
      assert members[..size][..position] == members[..position] && iterators[..size][..position] == iterators[..position];
    }

    /** `DoEraseMembers`: the members from `first` to `last` go, and the order of the others stays. */
    method EraseMembers(first: nat, last: nat)
      requires Valid() && first <= last <= size
      modifies this`size, this`index, members, iterators
      ensures Valid() && Contents() == Kept(old(Contents()), first, last)
    {
      hide Indexed, Erasing, Items;
      ghost var ms, its := members[..size], iterators[..size];
      if first != last {
        ErasingBegins(index, ms, its, first, last);
        assert forall i :: 0 <= i < size ==> its[i] == iterators[i];
        assert its[first..last] == iterators[first..last];
        EraseNodes(first, last);
        assert members[..size] == ms && iterators[..size] == its;
        MoveDown(first, last);
      } else {
        assert Kept(ms, first, last) == ms && Kept(its, first, last) == its;
      }
      size := size - (last - first);
    }

    /** `DoClearMembers`. */
    method Clear()
      requires Valid()
      modifies this`size, this`index
      ensures Valid() && Contents() == [] && index == map[]
    {
      var i := 0;
      while i < size
        invariant 0 <= i <= size == old(size)
        invariant forall k :: k in index ==> k in iterators[i..size] && k < nextNode
      {
        assert iterators[i..size] == [iterators[i]] + iterators[i + 1..size];
        index := index - {iterators[i]};
        i := i + 1;
      }
      assert iterators[i..size] == [];
      size := 0;
      assert index == map[];
    }

    /** `DoCopyMembers` into this object. */
    constructor Copy(rhs: ObjectData)
      requires rhs.Valid()
      ensures Valid() && Contents() == rhs.Contents() && members.Length == rhs.size && fresh(members) && fresh(iterators)
    {
      var count := rhs.size;
      members := new Member[count](_ => Member("", Null));
      iterators := new nat[count](_ => 0);
      size, index, nextNode := 0, map[], 0;
      new;
      hide Indexed;
      NothingIndexed();
      while size < count
        invariant Valid() && 0 <= size <= count == members.Length == rhs.size && fresh(members) && fresh(iterators)
        invariant Contents() == rhs.members[..size]
      {
        Append(rhs.members[size]);
        assert rhs.members[..size] == rhs.members[..size - 1] + [rhs.members[size - 1]];
      }
    }
  }

  /** The sequence while the items from `last` on move down to `first`: those before `next` have moved. */
  ghost predicate Moved<T>(now: seq<T>, s: seq<T>, first: nat, last: nat, next: nat) {
    && |now| == |s| && first <= last <= next <= |s|
    && (forall k :: 0 <= k < first ==> now[k] == s[k])
    && (forall k :: first <= k < next - (last - first) ==> now[k] == s[k + (last - first)])
    && (forall k :: next <= k < |s| ==> now[k] == s[k])
  }

  lemma Unmoved<T>(s: seq<T>, first: nat, last: nat)
    requires first <= last <= |s|
    ensures Moved(s, s, first, last, last)
  {
  }

  lemma MovedNext<T>(now: seq<T>, s: seq<T>, first: nat, last: nat, next: nat)
    requires Moved(now, s, first, last, next) && next < |s| && first < last
    ensures now[next] == s[next] && Moved(now[next - (last - first) := now[next]], s, first, last, next + 1)
  {
  }

  lemma MovedAll<T>(now: seq<T>, s: seq<T>, first: nat, last: nat)
    requires Moved(now, s, first, last, |s|)
    ensures now[..|s| - (last - first)] == Kept(s, first, last)
  {
  }

  ghost function Items(s: seq<nat>): set<nat> {
    set x | x in s
  }

  lemma ItemsAppend(s: seq<nat>, x: nat)
    ensures Items(s + [x]) == Items(s) + {x}
  {
  }

  lemma NothingIndexed()
    ensures Indexed(map[], [], [])
  {
  }

  lemma LastHasNode(index: Index, ms: seq<Member>, its: seq<nat>, i: nat)
    requires Indexed(index, ms, its) && i < |ms|
    ensures var n := |ms| - 1;
            n != i ==> its[n] in index && its[n] != its[i] && index[its[n]].(slot := i) == Node(ms[n].name, i)
  {
  }

  lemma ErasingHas(index: Index, ms: seq<Member>, its: seq<nat>, first: nat, last: nat, next: nat)
    requires Erasing(index, ms, its, first, last, next) && next < |ms|
    ensures its[next] in index
  {
  }

  lemma ErasingBegins(index: Index, ms: seq<Member>, its: seq<nat>, first: nat, last: nat)
    requires Indexed(index, ms, its) && first <= last <= |ms|
    ensures Erasing(index - Items(its[first..last]), ms, its, first, last, last)
    ensures forall i, j :: 0 <= i < j < |its| ==> its[i] != its[j]
  {
    forall i, j | 0 <= i < j < |its|
      ensures its[i] != its[j]
    {
      assert index[its[i]].slot == i && index[its[j]].slot == j;
    }
    forall i | 0 <= i < |its|
      ensures its[i] in Items(its[first..last]) <==> first <= i < last
    {
      if first <= i < last {
        assert its[first..last][i - first] == its[i];
      }
    }
  }
}
