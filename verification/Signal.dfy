/** The registry of breUtils/signal/Signal.hpp: groups of slots, each slot knowing its own place so that it can be
    removed without a search. */
module Signals {
  import opened Texts

  class Slot {
    var index: nat
    const group: int
    var connected: bool
    var blocked: bool

    constructor (gid: int)
      ensures index == 0 && group == gid && connected && !blocked
    {
      index, group, connected, blocked := 0, gid, true, false;
    }
  }

  datatype Group = Group(gid: int, slts: seq<Slot>)

  /** All slots, group by group. */
  function All(groups: seq<Group>): seq<Slot> {
    if groups == [] then [] else groups[0].slts + All(groups[1..])
  }

  /** The slots of the group `gid`, in their order; none if there is no such group. */
  function SlotsOf(groups: seq<Group>, gid: int): seq<Slot> {
    if groups == [] then []
    else if groups[0].gid == gid then groups[0].slts
    else SlotsOf(groups[1..], gid)
  }

  /** The slots that stand in some group. */
  ghost function Members(groups: seq<Group>): set<Slot> {
    set i, s | 0 <= i < |groups| && s in groups[i].slts :: s
  }

  ghost predicate Ascending(groups: seq<Group>) {
    forall i, j :: 0 <= i < j < |groups| ==> groups[i].gid < groups[j].gid
  }

  /** Every slot of a group belongs to it, and stands at the place it remembers. */
  ghost predicate GroupInPlace(g: Group)
    reads g.slts
  {
    forall k :: 0 <= k < |g.slts| ==> g.slts[k].group == g.gid && g.slts[k].index == k
  }

  ghost predicate InPlace(groups: seq<Group>)
    reads Members(groups)
  {
    forall i :: 0 <= i < |groups| ==>
      (forall s :: s in groups[i].slts ==> s in Members(groups)) && GroupInPlace(groups[i])
  }

  /** Removal at `i` in constant time: the last slot takes the place. */
  function SwapAndPop(slts: seq<Slot>, i: nat): seq<Slot>
    requires i < |slts|
  {
    slts[i := slts[|slts| - 1]][..|slts| - 1]
  }

  lemma {:induction false} SlotsOfGroup(groups: seq<Group>, gid: int)
    requires Ascending(groups)
    ensures forall i :: 0 <= i < |groups| && groups[i].gid == gid ==> SlotsOf(groups, gid) == groups[i].slts
    ensures (forall i :: 0 <= i < |groups| ==> groups[i].gid != gid) ==> SlotsOf(groups, gid) == []
  {
    if groups != [] {
      var rest := groups[1..];
      assert forall i :: 0 <= i < |rest| ==> rest[i] == groups[i + 1];
      SlotsOfGroup(rest, gid);
      assert forall i :: 0 < i < |groups| ==> groups[i] == rest[i - 1];
    }
  }

  lemma SlotsOfUpdate(groups: seq<Group>, i: nat, slts: seq<Slot>)
    requires Ascending(groups) && i < |groups|
    ensures
      var after := groups[i := Group(groups[i].gid, slts)];
      forall gid :: SlotsOf(after, gid) == if gid == groups[i].gid then slts else SlotsOf(groups, gid)
    ensures SlotsOf(groups, groups[i].gid) == groups[i].slts
  {
    hide SlotsOf;
    var after := groups[i := Group(groups[i].gid, slts)];
    SlotsOfGroup(groups, groups[i].gid);
    forall gid ensures SlotsOf(after, gid) == if gid == groups[i].gid then slts else SlotsOf(groups, gid) {
      SlotsOfGroup(groups, gid);
      SlotsOfGroup(after, gid);
      if j :| 0 <= j < |groups| && groups[j].gid == gid {
        assert after[j].gid == gid;
      }
    }
  }

  lemma {:induction false} MembersOfAll(groups: seq<Group>)
    ensures Members(groups) == set s | s in All(groups)
  {
    if groups == [] {
      assert Members(groups) == {};
      assert (set s | s in All(groups)) == {};
    } else {
      var first, rest := groups[0].slts, groups[1..];
      MembersOfAll(rest);
      forall s ensures s in Members(groups) <==> s in first || s in Members(rest) {
        if i :| 0 <= i < |rest| && s in rest[i].slts {
          assert rest[i] == groups[i + 1];
        }
        if i :| 0 <= i < |groups| && s in groups[i].slts {
          assert i > 0 ==> groups[i] == rest[i - 1];
        }
      }
      assert All(groups) == first + All(rest);
      assert Members(groups) == (set s | s in first) + Members(rest);
      assert (set s | s in All(groups)) == (set s | s in first) + (set s | s in All(rest));
    }
  }

  /** No slot stands in two places, and the groups follow one another in ascending order. */
  lemma {:induction false} AllInOrder(groups: seq<Group>)
    requires Ascending(groups) && InPlace(groups)
    ensures forall a, b :: 0 <= a < b < |All(groups)| ==>
      All(groups)[a] != All(groups)[b] && All(groups)[a].group <= All(groups)[b].group
    ensures forall a :: 0 <= a < |All(groups)| ==> groups != [] && groups[0].gid <= All(groups)[a].group
  {
    if groups != [] {
      var rest, first := groups[1..], groups[0].slts;
      assert forall i :: 0 <= i < |rest| ==> rest[i] == groups[i + 1];
      AllInOrder(rest);
      assert GroupInPlace(groups[0]);
      assert rest != [] ==> groups[0].gid < groups[1].gid && rest[0] == groups[1];
      assert forall a :: |first| <= a < |All(groups)| ==> All(groups)[a] == All(rest)[a - |first|];
      assert forall a :: 0 <= a < |first| ==> All(groups)[a] == first[a];
    } else {
      assert |All(groups)| == 0;
    }
  }

  /** With different slots, swapping and popping takes away one slot and keeps the others. */
  lemma SwapAndPopRemoves(slts: seq<Slot>, k: nat)
    requires k < |slts| && forall a, b :: 0 <= a < b < |slts| ==> slts[a] != slts[b]
    ensures forall s :: s in SwapAndPop(slts, k) <==> s in slts && s != slts[k]
  {
    var rest, last := SwapAndPop(slts, k), |slts| - 1;
    forall s | s in slts && s != slts[k] ensures s in rest {
      var a :| 0 <= a < |slts| && slts[a] == s;
      assert rest[if a == last then k else a] == s;
    }
  }

  class Signal {
    var slots: seq<Group>
    var block: bool

    ghost predicate Placed()
      reads this, Members(slots)
    {
      Ascending(slots) && InPlace(slots)
    }

    /** Who is disconnected is not registered any more. */
    ghost predicate Valid()
      reads this, Members(slots)
    {
      Placed() && forall s :: s in Members(slots) ==> s.connected
    }

    constructor ()
      ensures Valid() && Members(slots) == {} && !block
    {
      slots := [];
      block := false;
    }

    /** The part of `add_slot` that finds the group of an id, or creates it in its place. */
    method FindGroup(gid: int) returns (i: nat)
      requires Placed()
      modifies this`slots
      ensures Placed() && Members(slots) == old(Members(slots))
      ensures i < |slots| && slots[i].gid == gid
      ensures forall g :: SlotsOf(slots, g) == SlotsOf(old(slots), g)
    {
      i := 0;
      while i < |slots| && slots[i].gid < gid
        invariant i <= |slots| && forall j :: 0 <= j < i ==> slots[j].gid < gid
      {
        i := i + 1;
      }
      if i == |slots| || slots[i].gid != gid {
        EmptyGroupChangesNothing(slots, i, gid);
        assert forall j :: 0 <= j < |slots| ==> slots[j].gid != gid;
        hide Ascending, InPlace, SlotsOf, Members;
        forall g {
          EmptyGroupHasNoSlots(slots, i, gid, g);
        }
        slots := slots[..i] + [Group(gid, [])] + slots[i..];
      }
    }

    /** `add_slot` */
    method AddSlot(s: Slot)
      requires Valid() && s !in Members(slots) && s.connected
      modifies this`slots, s`index
      ensures Valid() && Members(slots) == old(Members(slots)) + {s}
      ensures SlotsOf(slots, s.group) == SlotsOf(old(slots), s.group) + [s]
      ensures forall g :: g != s.group ==> SlotsOf(slots, g) == SlotsOf(old(slots), g)
    {
      hide Ascending, InPlace;
      var i := FindGroup(s.group);
      ghost var groups := slots;
      s.index := |slots[i].slts|;
      assert InPlace(groups);
      SlotIsAppended(groups, i, s);
      SlotsOfUpdate(groups, i, groups[i].slts + [s]);
      slots := slots[i := Group(s.group, slots[i].slts + [s])];
    }

    /** `Connect`, for a callable that stays abstract. */
    method Connect(gid: int) returns (s: Slot)
      requires Valid()
      modifies this`slots
      ensures Valid() && fresh(s) && s.group == gid && !s.blocked
      ensures Members(slots) == old(Members(slots)) + {s}
      ensures SlotsOf(slots, gid) == SlotsOf(old(slots), gid) + [s]
      ensures forall g :: g != gid ==> SlotsOf(slots, g) == SlotsOf(old(slots), g)
    {
      s := new Slot(gid);
      AddSlot(s);
    }

    /** Swaps a slot with the last one of its group, corrects the place that one remembers, and pops it. */
    method RemoveAt(i: nat, k: nat)
      requires Placed() && i < |slots| && k < |slots[i].slts|
      modifies this`slots, Members(slots)`index
      ensures Placed() && Members(slots) == old(Members(slots)) - {old(slots[i].slts[k])}
      ensures slots == old(slots)[i := Group(old(slots[i].gid), SwapAndPop(old(slots[i].slts), k))]
    {
      var slts := slots[i].slts;
      var last := slts[|slts| - 1];
      ghost var groups := slots;
      var g := Group(slots[i].gid, SwapAndPop(slts, k));
      InOneGroup(groups, i);
      SwapAndPopRemoves(slts, k);
      MembersOfUpdate(groups, i, g);
      GroupsStandInMembers(groups);
      GroupsStandInMembers(groups[i := g]);
      assert GroupInPlace(groups[i]);
      hide Members, Elsewhere;
      last.index := k;
      assert forall j :: 0 <= j < |groups| && j != i ==> GroupInPlace(groups[j]);
      assert GroupInPlace(g);
      slots := slots[i := g];
    }

    /** `clean`: removes the slot at the place that it remembers, if it is still there. */
    method Clean(s: Slot)
      requires Placed()
      modifies this`slots, Members(slots)`index
      ensures Placed() && Members(slots) == old(Members(slots)) - {s}
      ensures s !in old(Members(slots)) ==> slots == old(slots)
      ensures s in old(Members(slots)) ==>
        var slts := SlotsOf(old(slots), s.group);
        && old(s.index) < |slts| && slts[old(s.index)] == s
        && SlotsOf(slots, s.group) == SwapAndPop(slts, old(s.index))
        && forall g :: g != s.group ==> SlotsOf(slots, g) == SlotsOf(old(slots), g)
    {
      var idx, gid := s.index, s.group;
      for i := 0 to |slots|
        invariant Placed() && slots == old(slots)
        invariant forall j :: 0 <= j < i ==> slots[j].gid != gid
        invariant forall x :: x in Members(slots) ==> x.index == old(x.index)
        invariant s.index == old(s.index)
      {
        if slots[i].gid == gid {
          OnlyInItsGroup(slots, i, s);
          if idx < |slots[i].slts| && slots[i].slts[idx] == s {
            SlotsOfUpdate(slots, i, SwapAndPop(slots[i].slts, idx));
            RemoveAt(i, idx);
          }
          return;
        }
      }
      NowhereElse(slots, s);
    }

    /** `slot_state::disconnect` of a slot of this signal; true the first time. */
    method DisconnectSlot(s: Slot) returns (ret: bool)
      requires Valid()
      modifies this`slots, Members(slots)`index, s`connected
      ensures ret == old(s.connected) && !s.connected
      ensures Valid() && Members(slots) == old(Members(slots)) - {s}
    {
      ret := s.connected;
      s.connected := false;
      if ret {
        Clean(s);
      }
    }

    /** The inner loop of `disconnect_if`: removes from one group the slots that satisfy the condition. */
    method DisconnectInGroup(i: nat, cond: Slot -> bool) returns (count: nat, ghost gone: set<Slot>)
      requires Placed() && i < |slots|
      modifies this`slots, Members(slots)`index
      ensures Placed() && |slots| == |old(slots)|
      ensures forall j :: 0 <= j < |slots| && j != i ==> slots[j] == old(slots)[j]
      ensures gone <= old(Members(slots)) && Members(slots) == old(Members(slots)) - gone && count == |gone|
      ensures forall s :: s in gone ==> cond(s)
      ensures forall s :: s in slots[i].slts ==> !cond(s)
    {
      hide Ascending, InPlace, Members, SwapAndPop;
      count, gone := 0, {};
      var k := 0;
      while k < |slots[i].slts|
        invariant Placed() && |slots| == |old(slots)|
        invariant forall j :: 0 <= j < |slots| && j != i ==> slots[j] == old(slots)[j]
        invariant gone <= old(Members(slots)) && Members(slots) == old(Members(slots)) - gone && count == |gone|
        invariant forall s :: s in gone ==> cond(s)
        invariant k <= |slots[i].slts| && forall m :: 0 <= m < k ==> !cond(slots[i].slts[m])
        decreases |slots[i].slts| - k
      {
        if cond(slots[i].slts[k]) {
          ghost var s := slots[i].slts[k];
          IsMember(slots, i, k);
          SwapAndPopKeepsFront(slots[i].slts, k);
          RemoveAt(i, k);
          gone := gone + {s};
          count := count + 1;
        } else {
          k := k + 1;
        }
      }
    }

    /** `disconnect_if`: removes the slots that satisfy the condition, whatever it is. */
    method DisconnectIf(cond: Slot -> bool) returns (count: nat)
      requires Valid()
      modifies this`slots, Members(slots)`index
      ensures Valid() && Members(slots) == set s | s in old(Members(slots)) && !cond(s)
      ensures count == |set s | s in old(Members(slots)) && cond(s)|
    {
      hide Ascending, InPlace;
      count := 0;
      ghost var gone: set<Slot> := {};
      for i := 0 to |slots|
        invariant |slots| == |old(slots)| && Placed()
        invariant gone <= old(Members(slots)) && Members(slots) == old(Members(slots)) - gone && count == |gone|
        invariant forall s :: s in gone ==> cond(s)
        invariant forall j, s :: 0 <= j < i && s in slots[j].slts ==> !cond(s)
      {
        var n;
        ghost var more;
        n, more := DisconnectInGroup(i, cond);
        gone, count := gone + more, count + n;
      }
      forall s | s in Members(slots) ensures !cond(s) {
        var j :| 0 <= j < |slots| && s in slots[j].slts;
      }
      assert gone == set s | s in old(Members(slots)) && cond(s);
    }

    /** `Disconnect(int)`: empties the group of that id. */
    method DisconnectGroup(gid: int) returns (count: nat)
      requires Valid()
      modifies this`slots
      ensures Valid() && Members(slots) == set s | s in old(Members(slots)) && s.group != gid
      ensures count == |set s | s in old(Members(slots)) && s.group == gid|
      ensures forall g :: SlotsOf(slots, g) == if g == gid then [] else SlotsOf(old(slots), g)
    {
      for i := 0 to |slots|
        invariant slots == old(slots)
        invariant forall j :: 0 <= j < i ==> slots[j].gid != gid
      {
        if slots[i].gid == gid {
          count := |slots[i].slts|;
          GroupIsCleared(slots, i);
          SlotsOfUpdate(slots, i, []);
          slots := slots[i := Group(gid, [])];
          return;
        }
      }
      NoSlotOf(slots, gid);
      SlotsOfGroup(slots, gid);
      count := 0;
    }

    method DisconnectAll()
      requires Valid()
      modifies this`slots
      ensures Valid() && Members(slots) == {}
    {
      slots := [];
    }

    /** `slot_count` */
    method SlotCount() returns (count: nat)
      requires Valid()
      ensures count == |Members(slots)|
    {
      count := 0;
      for i := 0 to |slots|
        invariant count == |All(slots[..i])|
      {
        AllGrows(slots, i);
        count := count + |slots[i].slts|;
      }
      assert slots[..|slots|] == slots;
      AllInOrder(slots);
      MembersOfAll(slots);
      DistinctSize(All(slots));
    }

    /** `Emit`: the slots whose callables run, in the order in which they do. */
    method Emit() returns (called: seq<Slot>)
      requires Valid()
      ensures block ==> called == []
      ensures !block ==> forall s :: s in called <==> s in Members(slots) && !s.blocked
      ensures forall a, b :: 0 <= a < b < |called| ==> Before(called[a], called[b])
    {
      called := [];
      if block {
        return;
      }
      for i := 0 to |slots|
        invariant forall s :: s in called <==> !s.blocked && exists j :: 0 <= j < i && s in slots[j].slts
        invariant forall a, b :: 0 <= a < b < |called| ==> Before(called[a], called[b])
        invariant forall s :: s in called && i < |slots| ==> s.group < slots[i].gid
      {
        assert GroupInPlace(slots[i]);
        for k := 0 to |slots[i].slts|
          invariant forall s :: s in called <==>
            !s.blocked && ((exists j :: 0 <= j < i && s in slots[j].slts) || s in slots[i].slts[..k])
          invariant forall a, b :: 0 <= a < b < |called| ==> Before(called[a], called[b])
          invariant forall s :: s in called ==> s.group < slots[i].gid || (s.group == slots[i].gid && s.index < k)
        {
          var s := slots[i].slts[k];
          if s.connected && !s.blocked {
            called := called + [s];
          }
        }
      }
    }
  }

  /** In a lower group, or before in the same one: so also not the same slot. */
  ghost predicate Before(s: Slot, t: Slot)
    reads s`index, t`index
  {
    s.group < t.group || (s.group == t.group && s.index < t.index)
  }

  lemma IsMember(groups: seq<Group>, i: nat, k: nat)
    requires i < |groups| && k < |groups[i].slts|
    ensures groups[i].slts[k] in Members(groups)
  {
    assert groups[i].slts[k] in groups[i].slts;
  }

  lemma SwapAndPopKeepsFront(slts: seq<Slot>, k: nat)
    requires k < |slts|
    ensures |SwapAndPop(slts, k)| == |slts| - 1
    ensures forall m :: 0 <= m < k ==> SwapAndPop(slts, k)[m] == slts[m]
  {
  }

  lemma AllGrows(groups: seq<Group>, i: nat)
    requires i < |groups|
    ensures All(groups[..i + 1]) == All(groups[..i]) + groups[i].slts
  {
    if i == 0 {
      assert groups[..1] == [groups[0]] && groups[..1][1..] == [];
    } else {
      AllGrows(groups[1..], i - 1);
      assert groups[..i + 1][1..] == groups[1..][..i] && groups[..i][1..] == groups[1..][..i - 1];
    }
  }

  /** A registered slot is found in its group, at its place. */
  lemma OnlyInItsGroup(groups: seq<Group>, i: nat, s: Slot)
    requires Ascending(groups) && InPlace(groups) && i < |groups| && groups[i].gid == s.group
    ensures s in Members(groups) <==> s.index < |groups[i].slts| && groups[i].slts[s.index] == s
  {
    if s in Members(groups) {
      var j :| 0 <= j < |groups| && s in groups[j].slts;
      assert GroupInPlace(groups[j]);
    }
  }

  lemma NowhereElse(groups: seq<Group>, s: Slot)
    requires InPlace(groups) && forall j :: 0 <= j < |groups| ==> groups[j].gid != s.group
    ensures s !in Members(groups)
  {
    forall j | 0 <= j < |groups| ensures s !in groups[j].slts {
      assert GroupInPlace(groups[j]);
    }
  }

  lemma NoSlotOf(groups: seq<Group>, gid: int)
    requires InPlace(groups) && forall j :: 0 <= j < |groups| ==> groups[j].gid != gid
    ensures forall s :: s in Members(groups) ==> s.group != gid
  {
    forall s | s in Members(groups) ensures s.group != gid {
      var j :| 0 <= j < |groups| && s in groups[j].slts;
      assert GroupInPlace(groups[j]);
    }
  }

  lemma GroupIsCleared(groups: seq<Group>, i: nat)
    requires Ascending(groups) && InPlace(groups) && i < |groups|
    ensures
      var gid := groups[i].gid;
      var after := groups[i := Group(gid, [])];
      && Ascending(after) && InPlace(after)
      && Members(after) == (set s | s in Members(groups) && s.group != gid)
      && |groups[i].slts| == |set s | s in Members(groups) && s.group == gid|
  {
    var gid := groups[i].gid;
    InOneGroup(groups, i);
    MembersOfUpdate(groups, i, Group(gid, []));
    DistinctSize(groups[i].slts);
    assert GroupInPlace(groups[i]);
    forall j, s | 0 <= j < |groups| && j != i && s in groups[j].slts ensures s.group != gid {
      assert GroupInPlace(groups[j]);
    }
    assert (set s | s in groups[i].slts) == set s | s in Members(groups) && s.group == gid;
  }

  /** The slots of a group differ from one another and from those of all other groups. */
  lemma InOneGroup(groups: seq<Group>, i: nat)
    requires Ascending(groups) && InPlace(groups) && i < |groups|
    ensures forall a, b :: 0 <= a < b < |groups[i].slts| ==> groups[i].slts[a] != groups[i].slts[b]
    ensures forall s, j :: 0 <= j < |groups| && j != i && s in groups[i].slts ==> s !in groups[j].slts
    ensures forall s :: s in groups[i].slts ==> !Elsewhere(groups, i, s)
  {
    assert GroupInPlace(groups[i]);
    forall s, j | 0 <= j < |groups| && j != i && s in groups[i].slts ensures s !in groups[j].slts {
      assert GroupInPlace(groups[j]);
    }
  }

  ghost predicate Elsewhere(groups: seq<Group>, i: nat, s: Slot) {
    exists j :: 0 <= j < |groups| && j != i && s in groups[j].slts
  }

  lemma MembersOfUpdate(groups: seq<Group>, i: nat, g: Group)
    requires i < |groups|
    ensures forall s :: s in Members(groups[i := g]) <==> s in g.slts || Elsewhere(groups, i, s)
    ensures forall s :: s in Members(groups) <==> s in groups[i].slts || Elsewhere(groups, i, s)
  {
    var after := groups[i := g];
    forall s ensures s in Members(after) <==> s in g.slts || Elsewhere(groups, i, s) {
      if s in g.slts {
        assert s in after[i].slts;
      }
      if Elsewhere(groups, i, s) {
        var j :| 0 <= j < |groups| && j != i && s in groups[j].slts;
        assert s in after[j].slts;
      }
    }
  }

  lemma SlotIsAppended(groups: seq<Group>, i: nat, s: Slot)
    requires Ascending(groups) && InPlace(groups) && i < |groups| && s !in Members(groups)
    requires s.group == groups[i].gid && s.index == |groups[i].slts|
    ensures
      var after := groups[i := Group(s.group, groups[i].slts + [s])];
      Ascending(after) && InPlace(after) && Members(after) == Members(groups) + {s}
  {
    MembersOfUpdate(groups, i, Group(s.group, groups[i].slts + [s]));
    assert GroupInPlace(groups[i]);
  }

  lemma EmptyGroupChangesNothing(groups: seq<Group>, i: nat, gid: int)
    requires i <= |groups| && Ascending(groups) && InPlace(groups)
    requires forall j :: 0 <= j < i ==> groups[j].gid < gid
    requires i < |groups| ==> gid < groups[i].gid
    ensures
      var after := groups[..i] + [Group(gid, [])] + groups[i..];
      Ascending(after) && InPlace(after) && Members(after) == Members(groups)
  {
    var after := groups[..i] + [Group(gid, [])] + groups[i..];
    forall s | s in Members(groups) ensures s in Members(after) {
      var j :| 0 <= j < |groups| && s in groups[j].slts;
      assert s in after[if j < i then j else j + 1].slts;
    }
  }

  lemma {:induction false} EmptyGroupHasNoSlots(groups: seq<Group>, i: nat, gid: int, g: int)
    requires i <= |groups| && forall j :: 0 <= j < |groups| ==> groups[j].gid != gid
    ensures SlotsOf(groups[..i] + [Group(gid, [])] + groups[i..], g) == SlotsOf(groups, g)
  {
    var after := groups[..i] + [Group(gid, [])] + groups[i..];
    if i == 0 {
      assert after[1..] == groups;
      NoGroupNoSlots(groups, gid);
    } else {
      var rest := groups[1..];
      EmptyGroupHasNoSlots(rest, i - 1, gid, g);
      assert after[1..] == rest[..i - 1] + [Group(gid, [])] + rest[i - 1..];
    }
  }

  lemma {:induction false} NoGroupNoSlots(groups: seq<Group>, gid: int)
    requires forall j :: 0 <= j < |groups| ==> groups[j].gid != gid
    ensures SlotsOf(groups, gid) == []
  {
    if groups != [] {
      NoGroupNoSlots(groups[1..], gid);
    }
  }

  lemma GroupsStandInMembers(groups: seq<Group>)
    ensures forall i, s :: 0 <= i < |groups| && s in groups[i].slts ==> s in Members(groups)
  {
  }
}
