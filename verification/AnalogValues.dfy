/** The eight-slot table of client-created Analog Values, and the map it stands for. */
module AnalogValues {
  import opened Octets
  import opened Decimal

  const MAX_CREATED := 8

  type Value = d: Number | Normal(d) witness Number(false, 0, 0)

  datatype Slot = Slot(inUse: bool, instance: Unsigned32, value: Value)

  type Table = seq<Slot>

  /** Instance to Present_Value, first matching slot first. */
  function Contents(t: Table): map<Unsigned32, Value> {
    if t == [] then map[]
    else Contents(t[1..]) + (if t[0].inUse then map[t[0].instance := t[0].value] else map[])
  }

  predicate Distinct(t: Table) {
    forall i, j :: 0 <= i < j < |t| && t[i].inUse && t[j].inUse ==> t[i].instance != t[j].instance
  }

  predicate Holds(s: Slot, instance: Unsigned32) {
    s.inUse && s.instance == instance
  }

  /** The first slot that holds `instance`. */
  function Find(t: Table, instance: Unsigned32): (r: Option<nat>)
    ensures r.Some? ==> r.value < |t| && Holds(t[r.value], instance)
    ensures r.Some? ==> forall i :: 0 <= i < r.value ==> !Holds(t[i], instance)
    ensures r.None? ==> forall i :: 0 <= i < |t| ==> !Holds(t[i], instance)
  {
    if t == [] then None
    else if Holds(t[0], instance) then Some(0)
    else
      match Find(t[1..], instance)
      case None =>
        assert forall i :: 0 < i < |t| ==> t[i] == t[1..][i - 1];
        None
      case Some(i) =>
        assert forall k :: 0 < k < |t| ==> t[k] == t[1..][k - 1];
        Some(i + 1)
  }

  /** The first slot not in use. */
  function Free(t: Table): (r: Option<nat>)
    ensures r.Some? ==> r.value < |t| && !t[r.value].inUse
    ensures r.Some? ==> forall i :: 0 <= i < r.value ==> t[i].inUse
    ensures r.None? ==> forall i :: 0 <= i < |t| ==> t[i].inUse
  {
    if t == [] then None
    else if !t[0].inUse then Some(0)
    else
      match Free(t[1..])
      case None =>
        assert forall i :: 0 < i < |t| ==> t[i] == t[1..][i - 1];
        None
      case Some(i) =>
        assert forall k :: 0 < k < |t| ==> t[k] == t[1..][k - 1];
        Some(i + 1)
  }

  /** The map has exactly the slots in use. */
  lemma {:induction false} ContentsOf(t: Table)
    requires Distinct(t)
    ensures forall i :: 0 <= i < |t| && t[i].inUse ==>
            t[i].instance in Contents(t) && Contents(t)[t[i].instance] == t[i].value
    ensures forall instance :: instance in Contents(t) ==> exists i :: 0 <= i < |t| && Holds(t[i], instance)
    decreases |t|
  {
    if t != [] {
      ContentsOf(t[1..]);
      forall i | 0 <= i < |t| && t[i].inUse
        ensures t[i].instance in Contents(t) && Contents(t)[t[i].instance] == t[i].value
      {
        if i > 0 {
          assert t[1..][i - 1] == t[i];
        }
      }
      forall instance | instance in Contents(t)
        ensures exists i :: 0 <= i < |t| && Holds(t[i], instance)
      {
        if instance in Contents(t[1..]) {
          var i :| 0 <= i < |t[1..]| && Holds(t[1..][i], instance);
          assert Holds(t[i + 1], instance);
        } else {
          assert Holds(t[0], instance);
        }
      }
    }
  }

  function Without(m: map<Unsigned32, Value>, s: Slot): map<Unsigned32, Value> {
    if s.inUse then m - {s.instance} else m
  }

  function With(m: map<Unsigned32, Value>, s: Slot): map<Unsigned32, Value> {
    if s.inUse then m[s.instance := s.value] else m
  }

  /** Replacing one slot replaces its entry. */
  lemma ContentsUpdate(t: Table, i: nat, s: Slot)
    requires i < |t| && Distinct(t)
    requires s.inUse ==> forall j :: 0 <= j < |t| && j != i ==> !Holds(t[j], s.instance)
    ensures Distinct(t[i := s])
    ensures Contents(t[i := s]) == With(Without(Contents(t), t[i]), s)
  {
    hide Contents;
    var t' := t[i := s];
    var m := With(Without(Contents(t), t[i]), s);
    assert Distinct(t') by {
      forall a, b | 0 <= a < b < |t'| && t'[a].inUse && t'[b].inUse
        ensures t'[a].instance != t'[b].instance
      {
        if a == i {
          assert !Holds(t[b], s.instance);
        } else if b == i {
          assert !Holds(t[a], s.instance);
        }
      }
    }
    ContentsOf(t);
    ContentsOf(t');
    forall instance
      ensures instance in Contents(t') <==> instance in m
      ensures instance in Contents(t') ==> Contents(t')[instance] == m[instance]
    {
      SameEntry(t, i, s, instance);
    }
    assert Contents(t').Keys == m.Keys;
  }

  lemma SameEntry(t: Table, i: nat, s: Slot, instance: Unsigned32)
    requires i < |t| && Distinct(t) && Distinct(t[i := s])
    requires s.inUse ==> forall j :: 0 <= j < |t| && j != i ==> !Holds(t[j], s.instance)
    ensures var m := With(Without(Contents(t), t[i]), s);
            && (instance in Contents(t[i := s]) <==> instance in m)
            && (instance in m ==> Contents(t[i := s])[instance] == m[instance])
  {
    hide Contents;
    var t' := t[i := s];
    var m := With(Without(Contents(t), t[i]), s);
    ContentsOf(t);
    ContentsOf(t');
    if instance in m {
      if !Holds(s, instance) {
        var k :| 0 <= k < |t| && Holds(t[k], instance);
        assert k != i;
        assert Holds(t'[k], instance);
      } else {
        assert Holds(t'[i], instance);
      }
    }
    if instance in Contents(t') {
      var k :| 0 <= k < |t'| && Holds(t'[k], instance);
      if k != i {
        assert Holds(t[k], instance);
        assert !Holds(t[i], instance);
      }
    }
  }

  lemma FindInContents(t: Table, instance: Unsigned32)
    requires Distinct(t)
    ensures Find(t, instance).Some? <==> instance in Contents(t)
  {
    hide Contents, Find;
    ContentsOf(t);
  }

  lemma HeadIsNew(t: Table)
    requires Distinct(t) && t != [] && t[0].inUse
    ensures t[0].instance !in Contents(t[1..])
  {
    hide Contents;
    ContentsOf(t[1..]);
    assert forall k :: 0 <= k < |t[1..]| ==> t[1..][k] == t[k + 1] && !Holds(t[1..][k], t[0].instance);
  }

  /** A table with no free slot holds as many objects as it has slots. */
  lemma {:induction false} FullTable(t: Table)
    requires Distinct(t) && forall i :: 0 <= i < |t| ==> t[i].inUse
    ensures |Contents(t).Keys| == |t|
    decreases |t|
  {
    if t != [] {
      FullTable(t[1..]);
      HeadIsNew(t);
      var rest := Contents(t[1..]);
      assert Contents(t) == rest + map[t[0].instance := t[0].value];
      KeysPlusOne(rest, t[0].instance, t[0].value);
    }
  }

  lemma KeysPlusOne(m: map<Unsigned32, Value>, instance: Unsigned32, value: Value)
    requires instance !in m
    ensures |(m + map[instance := value]).Keys| == |m.Keys| + 1
  {
    assert (m + map[instance := value]).Keys == m.Keys + {instance};
  }
}
