/** The per-application registry in shared memory: ten slots, found by name. */
module AppRegistry {
  import opened Options


  const MAX_CNT := 10
  const EMPTY := "null"
  const MAX_NAME := 122  // "amem-" and the name have to fit the message buffer

  datatype Data = Data(appId: string, testInt: int, msg: seq<bv8>)

  /** A slot no one has written to. */
  function Cleared(): Data {
    Data("", 0, seq(1024, _ => 0))
  }

  // ----- A map of bounded capacity, as its records in the order of first registration -----

  type Records = seq<Data>  // the key of a record is its application id

  function IndexOf(e: Records, name: string): (r: Option<nat>)
    ensures r.Some? ==> r.value < |e| && e[r.value].appId == name && forall k | 0 <= k < r.value :: e[k].appId != name
    ensures r.None? ==> forall k | 0 <= k < |e| :: e[k].appId != name
  {
    if e == [] then None
    else if e[0].appId == name then Some(0)
    else match IndexOf(e[1..], name)
      case None => None
      case Some(k) => Some(k + 1)
  }

  predicate Distinct(e: Records) {
    forall i, j | 0 <= i < j < |e| :: e[i].appId != e[j].appId
  }

  lemma FoundAt(e: Records, i: nat)
    requires Distinct(e) && i < |e|
    ensures IndexOf(e, e[i].appId) == Some(i)
  {}

  function AsMap(e: Records): map<string, Data> {
    map n | n in (set k | 0 <= k < |e| :: e[k].appId) :: match IndexOf(e, n) case Some(k) => e[k] case None => e[0]
  }

  lemma MapEntries(e: Records, n: string)
    ensures n in AsMap(e) <==> IndexOf(e, n).Some?
    ensures n in AsMap(e) ==> AsMap(e)[n] == e[IndexOf(e, n).value]
  {
    if k: nat :| k < |e| && e[k].appId == n {
      assert IndexOf(e, n).Some?;
    }
  }

  /** What readers can find: the records, and in the first free slot, which is what a search for the
      marker comes to, whatever was put there under the marker. */
  datatype Table = Table(records: Records, spare: Data)

  function Unused(): Data {
    Cleared().(appId := EMPTY)
  }

  predicate WellFormed(t: Table) {
    Distinct(t.records) && |t.records| <= MAX_CNT && forall k | 0 <= k < |t.records| :: t.records[k].appId != EMPTY
  }

  function Lookup(t: Table, name: string): Option<Data> {
    if name == EMPTY then
      if |t.records| < MAX_CNT then Some(t.spare) else None
    else match IndexOf(t.records, name)
      case Some(i) => Some(t.records[i])
      case None => None
  }

  function SetRecord(t: Table, name: string, data: Data): Table {
    if name == EMPTY then
      if |t.records| < MAX_CNT then t.(spare := data.(appId := EMPTY)) else t
    else match IndexOf(t.records, name)
      case Some(i) => t.(records := t.records[i := data.(appId := name)])
      case None => if |t.records| < MAX_CNT then Table(t.records + [data.(appId := name)], Unused()) else t
  }

  /** Whether a set under this name finds a slot. */
  predicate HasSlot(t: Table, name: string) {
    IndexOf(t.records, name).Some? || |t.records| < MAX_CNT
  }

  lemma SetKeepsOrder(t: Table, name: string, data: Data)
    requires WellFormed(t)
    ensures var s := SetRecord(t, name, data);
            && WellFormed(s) && |t.records| <= |s.records|
            && forall k | 0 <= k < |t.records| :: s.records[k].appId == t.records[k].appId
  {}

  /** What a set does to a later search for any name, the marker included. */
  lemma SetFinds(t: Table, name: string, data: Data, n: string)
    requires WellFormed(t)
    ensures Lookup(SetRecord(t, name, data), n)
         == if n == name && HasSlot(t, name) then Some(data.(appId := name))
            else if n == EMPTY && HasSlot(t, name) && IndexOf(t.records, name).None? then
              if |t.records| + 1 < MAX_CNT then Some(Unused()) else None
            else Lookup(t, n)
  {
    var e, s := t.records, SetRecord(t, name, data).records;
    SetKeepsOrder(t, name, data);
    NoMarker(e);
    var k := IndexOf(e, n);
    if name != EMPTY && n == name && k == None && |e| < MAX_CNT {
      FoundAt(s, |e|);
    } else if k.Some? {
      assert s[k.value].appId == n;
      FoundAt(s, k.value);
    }
  }

  lemma NoMarker(e: Records)
    requires forall k | 0 <= k < |e| :: e[k].appId != EMPTY
    ensures IndexOf(e, EMPTY) == None
  {}

  /** Setting is a map update, unless the name is new and the registry full: then nothing changes.
      The order of the names already there never changes. */
  lemma SetIsMapUpdate(t: Table, name: string, data: Data)
    requires WellFormed(t) && name != "null"
    ensures var s, m := SetRecord(t, name, data), AsMap(t.records);
            var fits := name in m || |t.records| < 10;
            && WellFormed(s)
            && AsMap(s.records) == (if fits then m[name := data.(appId := name)] else m)
            && |t.records| <= |s.records| <= 10
            && (forall k | 0 <= k < |t.records| :: s.records[k].appId == t.records[k].appId)
            && (!fits ==> s == t)
  {
    SetKeepsOrder(t, name, data);
    MapEntries(t.records, name);
    UpdatedMap(t, name, data);
    hide AsMap;
  }

  lemma UpdatedMap(t: Table, name: string, data: Data)
    requires WellFormed(t) && name != EMPTY
    ensures var m := AsMap(t.records);
            AsMap(SetRecord(t, name, data).records) == if HasSlot(t, name) then m[name := data.(appId := name)] else m
  {
    hide AsMap, IndexOf, SetRecord, HasSlot;
    var m, u := AsMap(t.records), AsMap(SetRecord(t, name, data).records);
    var expected := if HasSlot(t, name) then m[name := data.(appId := name)] else m;
    forall n
      ensures (n in u <==> n in expected) && (n in u ==> u[n] == expected[n])
    {
      UpdatedEntry(t, name, data, n);
    }
  }

  lemma UpdatedEntry(t: Table, name: string, data: Data, n: string)
    requires WellFormed(t) && name != EMPTY
    ensures var m, u := AsMap(t.records), AsMap(SetRecord(t, name, data).records);
            var expected := if HasSlot(t, name) then m[name := data.(appId := name)] else m;
            (n in u <==> n in expected) && (n in u ==> u[n] == expected[n])
  {
    SetKeepsOrder(t, name, data);
    MapEntries(t.records, n);
    MapEntries(SetRecord(t, name, data).records, n);
    SetFinds(t, name, data, n);
    NoMarker(t.records);
    NoMarker(SetRecord(t, name, data).records);
    hide AsMap, IndexOf, SetRecord;
  }

  /** A set is read back at once exactly if its name is registered or a slot is free; the marker is
      no exception. */
  lemma SetIsReadBackExactlyIf(t: Table, name: string, data: Data)
    requires WellFormed(t)
    ensures Lookup(SetRecord(t, name, data), name) == Some(data.(appId := name))
            <==> |t.records| < 10 || exists k | 0 <= k < 10 :: t.records[k].appId == name
  {
    SetFinds(t, name, data, name);
    NoMarker(t.records);
  }

  // ----- Any run of sets, starting with an empty registry -----

  datatype Request = Request(name: string, data: Data)

  function SetAll(sets: seq<Request>): Table {
    if sets == [] then Table([], Unused())
    else SetRecord(SetAll(sets[..|sets| - 1]), sets[|sets| - 1].name, sets[|sets| - 1].data)
  }

  /** The different names, in the order they first appear. */
  function FirstNames(sets: seq<Request>): seq<string> {
    if sets == [] then []
    else
      var before, name := FirstNames(sets[..|sets| - 1]), sets[|sets| - 1].name;
      if name == EMPTY || name in before then before else before + [name]
  }

  /** The data of the last request for a name. */
  function LastFor(sets: seq<Request>, name: string): Option<Data> {
    if sets == [] then None
    else if sets[|sets| - 1].name == name then Some(sets[|sets| - 1].data)
    else LastFor(sets[..|sets| - 1], name)
  }

  /** The data of the last request under the marker, if no name has been registered since. */
  function LastSpare(sets: seq<Request>): Option<Data> {
    if sets == [] then None
    else
      var front, last := sets[..|sets| - 1], sets[|sets| - 1];
      if last.name == EMPTY then Some(last.data)
      else if last.name in FirstNames(front) then LastSpare(front)
      else None
  }

  function FirstTen(names: seq<string>): seq<string> {
    if |names| <= MAX_CNT then names else names[..MAX_CNT]
  }

  /** The record with this name holds the data of its last request. */
  predicate HoldsLast(d: Data, name: string, sets: seq<Request>) {
    d.appId == name && LastFor(sets, name).Some? && d == LastFor(sets, name).value.(appId := name)
  }

  /** After any run the registry holds the first ten names in the order they first appeared, each
      with the data of its last request; later names are lost. */
  lemma RunIsBoundedMap(sets: seq<Request>)
    ensures var e, n := SetAll(sets).records, FirstNames(sets);
            && |e| == (if |n| <= 10 then |n| else 10)
            && forall k | 0 <= k < |e| ::
                 && e[k].appId == n[k]
                 && exists i | 0 <= i < |sets| && sets[i].name == n[k] ::
                      && e[k] == sets[i].data.(appId := n[k])
                      && forall j | i < j < |sets| :: sets[j].name != n[k]
  {
    RunHoldsLast(sets);
    var e, n := SetAll(sets).records, FirstNames(sets);
    hide SetAll, FirstNames, LastFor;
    forall k | 0 <= k < |e|
      ensures && e[k].appId == n[k]
              && exists i | 0 <= i < |sets| && sets[i].name == n[k] ::
                   && e[k] == sets[i].data.(appId := n[k])
                   && forall j | i < j < |sets| :: sets[j].name != n[k]
    {
      assert HoldsLast(e[k], n[k], sets);
      var i := LastForIs(sets, n[k]);
    }
  }

  lemma {:induction false} NamedExactlyIf(sets: seq<Request>, name: string)
    ensures name in FirstNames(sets) <==> name != "null" && exists j | 0 <= j < |sets| :: sets[j].name == name
  {
    if sets != [] {
      NamedExactlyIf(sets[..|sets| - 1], name);
      assert forall j | 0 <= j < |sets| - 1 :: sets[..|sets| - 1][j] == sets[j];
    }
  }

  /** The requests that bring a name in. */
  function Firsts(sets: seq<Request>): seq<nat> {
    if sets == [] then []
    else
      var n := |sets| - 1;
      var name := sets[n].name;
      Firsts(sets[..n]) + if name == EMPTY || name in FirstNames(sets[..n]) then [] else [n]
  }

  lemma {:induction false} FirstExactlyIf(sets: seq<Request>, j: nat)
    ensures j in Firsts(sets) <==> && j < |sets| && sets[j].name != "null"
                                   && forall i | 0 <= i < j :: sets[i].name != sets[j].name
  {
    hide FirstNames;
    if sets != [] {
      var n := |sets| - 1;
      FirstExactlyIf(sets[..n], j);
      if j == n {
        NamedExactlyIf(sets[..n], sets[n].name);
        assert forall i | 0 <= i < n :: sets[..n][i] == sets[i];
      }
    }
  }

  lemma {:induction false} FirstsInOrder(sets: seq<Request>)
    ensures |Firsts(sets)| == |FirstNames(sets)|
    ensures var at := Firsts(sets);
            forall a, b | 0 <= a < b < |at| :: at[a] < at[b]
  {
    if sets != [] {
      var n := |sets| - 1;
      var before := Firsts(sets[..n]);
      FirstsInOrder(sets[..n]);
      forall b | 0 <= b < |before|
        ensures before[b] < n
      {
        FirstExactlyIf(sets[..n], before[b]);
      }
    }
  }

  lemma {:induction false} NameOfFirst(sets: seq<Request>, k: nat)
    requires k < |Firsts(sets)|
    ensures |Firsts(sets)| == |FirstNames(sets)| && Firsts(sets)[k] < |sets|
    ensures FirstNames(sets)[k] == sets[Firsts(sets)[k]].name
  {
    var n := |sets| - 1;
    FirstsInOrder(sets[..n]);
    if k < |Firsts(sets[..n])| {
      NameOfFirst(sets[..n], k);
    }
  }

  /** The names are those of the requests for a name that no request before them was for, in order. */
  lemma FirstNamesAre(sets: seq<Request>) returns (at: seq<nat>)
    ensures |at| == |FirstNames(sets)| && forall a, b | 0 <= a < b < |at| :: at[a] < at[b]
    ensures forall j: nat ::
              j in at <==> && j < |sets| && sets[j].name != "null"
                           && forall i | 0 <= i < j :: sets[i].name != sets[j].name
    ensures forall k | 0 <= k < |at| :: at[k] < |sets| && FirstNames(sets)[k] == sets[at[k]].name
  {
    hide FirstNames, Firsts;
    at := Firsts(sets);
    FirstsInOrder(sets);
    forall j: nat
      ensures j in at <==> && j < |sets| && sets[j].name != "null"
                           && forall i | 0 <= i < j :: sets[i].name != sets[j].name
    {
      FirstExactlyIf(sets, j);
    }
    forall k | 0 <= k < |at|
      ensures at[k] < |sets| && FirstNames(sets)[k] == sets[at[k]].name
    {
      NameOfFirst(sets, k);
    }
  }

  lemma {:induction false} LastForIs(sets: seq<Request>, name: string) returns (i: nat)
    requires LastFor(sets, name).Some?
    ensures i < |sets| && sets[i].name == name && LastFor(sets, name) == Some(sets[i].data)
    ensures forall j | i < j < |sets| :: sets[j].name != name
  {
    var n := |sets| - 1;
    if sets[n].name == name {
      i := n;
    } else {
      i := LastForIs(sets[..n], name);
    }
  }

  lemma {:induction false} RunHoldsLast(sets: seq<Request>)
    ensures var t, n := SetAll(sets), FirstTen(FirstNames(sets));
            && |t.records| == |n| && WellFormed(t)
            && forall k | 0 <= k < |n| :: HoldsLast(t.records[k], n[k], sets)
  {
    if sets != [] {
      RunHoldsLast(sets[..|sets| - 1]);
      OneMoreSet(sets);
    }
  }

  /** One more set, on the registry t that holds the first ten of the names. */
  lemma OneMoreRecord(t: Table, names: seq<string>, front: seq<Request>, last: Request)
    requires |t.records| == |FirstTen(names)| && WellFormed(t)
    requires forall k | 0 <= k < |t.records| :: HoldsLast(t.records[k], names[k], front)
    requires last.name != EMPTY ==> (IndexOf(t.records, last.name).Some? <==> last.name in FirstTen(names))
    ensures var s := SetRecord(t, last.name, last.data);
            var n := FirstTen(if last.name == EMPTY || last.name in names then names else names + [last.name]);
            && |s.records| == |n| && WellFormed(s)
            && forall k | 0 <= k < |n| :: HoldsLast(s.records[k], n[k], front + [last])
  {
    var s := SetRecord(t, last.name, last.data);
    var n := FirstTen(if last.name == EMPTY || last.name in names then names else names + [last.name]);
    SetKeepsOrder(t, last.name, last.data);
    hide WellFormed, LastFor;
    forall k | 0 <= k < |n|
      ensures HoldsLast(s.records[k], n[k], front + [last])
    {
      OneMoreRequest(front, last, n[k]);
      if k < |t.records| {
        assert HoldsLast(t.records[k], names[k], front);
      }
    }
  }

  lemma OneMoreRequest(front: seq<Request>, last: Request, name: string)
    ensures LastFor(front + [last], name) == if last.name == name then Some(last.data) else LastFor(front, name)
  {
    assert (front + [last])[..|front|] == front;
  }

  lemma OneMoreSet(sets: seq<Request>)
    requires sets != []
    requires var front := sets[..|sets| - 1];
             var t, n := SetAll(front), FirstTen(FirstNames(front));
             && |t.records| == |n| && WellFormed(t)
             && forall k | 0 <= k < |n| :: HoldsLast(t.records[k], n[k], front)
    ensures var t, n := SetAll(sets), FirstTen(FirstNames(sets));
            && |t.records| == |n| && WellFormed(t)
            && forall k | 0 <= k < |n| :: HoldsLast(t.records[k], n[k], sets)
  {
    var front, last := sets[..|sets| - 1], sets[|sets| - 1];
    hide WellFormed, HoldsLast;
    assert front + [last] == sets;
    LaterNames(front, last.name);
    OneMoreRecord(SetAll(front), FirstNames(front), front, last);
  }

  /** A name among the first ten is in the registry; a name beyond them stays out. */
  lemma LaterNames(sets: seq<Request>, name: string)
    requires var e, n := SetAll(sets).records, FirstTen(FirstNames(sets));
             |e| == |n| && forall k | 0 <= k < |e| :: HoldsLast(e[k], n[k], sets)
    ensures IndexOf(SetAll(sets).records, name).Some? <==> name in FirstTen(FirstNames(sets))
    ensures |FirstNames(sets)| <= MAX_CNT ==>
        (IndexOf(SetAll(sets).records, name).Some? <==> name in FirstNames(sets))
  {
    hide SetAll, FirstNames, LastFor;
    var e, n := SetAll(sets).records, FirstTen(FirstNames(sets));
    assert forall k | 0 <= k < |e| :: e[k].appId == n[k];
    if name in n {
      var k :| 0 <= k < |n| && n[k] == name;
      assert e[k].appId == name;
    }
  }

  /** A record set under the marker stays readable until the next new name takes its slot: then, and
      once there is no free slot, it is gone. */
  lemma {:induction false} MarkerIsLastSpare(sets: seq<Request>)
    ensures Lookup(SetAll(sets), EMPTY)
         == if |FirstNames(sets)| >= 10 then None
            else match LastSpare(sets)
                 case Some(d) => Some(d.(appId := "null"))
                 case None => Some(Data("null", 0, seq(1024, _ => 0)))
  {
    RunHoldsLast(sets);
    if sets != [] {
      var front, last := sets[..|sets| - 1], sets[|sets| - 1];
      MarkerIsLastSpare(front);
      RunHoldsLast(front);
      LaterNames(front, last.name);
    }
  }

  lemma {:induction false} SpareSince(before: seq<Request>, d: Data, more: seq<Request>)
    requires forall k | 0 <= k < |more| :: more[k].name != EMPTY
    ensures var all := before + [Request(EMPTY, d)] + more;
            && FirstNames(before) <= FirstNames(all)
            && LastSpare(all) == if FirstNames(all) == FirstNames(before) then Some(d) else None
    decreases |more|
  {
    var upTo := before + [Request(EMPTY, d)];
    if more == [] {
      assert upTo + more == upTo && upTo[..|upTo| - 1] == before;
    } else {
      var n := |more| - 1;
      SpareSince(before, d, more[..n]);
      assert (upTo + more)[..|upTo + more| - 1] == upTo + more[..n];
    }
  }

  /** A record set under the marker while a slot is free is kept through a run of sets under names
      exactly if the run registers no new name. (A record that looks cleared cannot be told from
      the slot that comes after it.) */
  lemma MarkerIsKeptExactlyIf(before: seq<Request>, d: Data, more: seq<Request>)
    requires |FirstNames(before)| < 10 && d.(appId := "null") != Data("null", 0, seq(1024, _ => 0))
    requires forall k | 0 <= k < |more| :: more[k].name != "null"
    ensures var all := before + [Request("null", d)] + more;
            Lookup(SetAll(all), "null") == Some(d.(appId := "null")) <==> FirstNames(all) == FirstNames(before)
  {
    hide SetAll, FirstNames, LastSpare;
    SpareSince(before, d, more);
    MarkerIsLastSpare(before + [Request(EMPTY, d)] + more);
  }

  class Registry {
    var initFlag: int
    const appName: array<string>
    const perApp: array<Data>
    ghost var names: seq<string>  // the names in the used slots

    /** Used slots form a prefix with distinct names; behind the first free slot all is cleared. */
    ghost predicate Valid()
      reads this, appName, perApp
    {
      && appName.Length == perApp.Length == MAX_CNT && |names| <= MAX_CNT
      && (initFlag == 0 ==> names == [])
      && (initFlag != 0 ==> forall i | 0 <= i < MAX_CNT :: appName[i] == if i < |names| then names[i] else EMPTY)
      && (initFlag != 0 ==> forall i | |names| < i < MAX_CNT :: perApp[i] == Cleared())
      && (forall i | 0 <= i < |names| :: names[i] != EMPTY)
      && (forall i, j | 0 <= i < j < |names| :: names[i] != names[j])
    }

    /** The records as a reader sees them. */
    ghost function Used(): (e: Records)
      requires Valid()
      reads this, appName, perApp
      ensures |e| == |names| && forall i | 0 <= i < |e| :: e[i] == perApp[i].(appId := names[i])
    {
      seq(|names|, i requires 0 <= i < |names| <= perApp.Length reads this, perApp => perApp[i].(appId := names[i]))
    }

    ghost function Spare(): Data
      requires Valid()
      reads this, appName, perApp
    {
      if initFlag != 0 && |names| < MAX_CNT then perApp[|names|].(appId := EMPTY) else Unused()
    }

    ghost function Contents(): (t: Table)
      requires Valid()
      reads this, appName, perApp
      ensures WellFormed(t)
    {
      Table(Used(), Spare())
    }

    constructor ()
      ensures Valid() && Contents() == Table([], Unused()) && fresh(appName) && fresh(perApp)
    {
      appName := new string[MAX_CNT](_ => "");
      perApp := new Data[MAX_CNT](_ => Cleared());
      initFlag, names := 0, [];
    }

    /** The segment is initialised by whoever attaches it first. */
    method Init()
      requires Valid()
      modifies `initFlag, appName, perApp
      ensures Valid() && initFlag != 0 && Contents() == old(Contents())
    {
      if initFlag == 0 {
        forall i | 0 <= i < MAX_CNT {
          perApp[i] := Cleared();
        }
        forall i | 0 <= i < MAX_CNT {
          appName[i] := EMPTY;
        }
        initFlag := 1;
      }
    }

    /** strcmp over the slots. */
    method Find(name: string) returns (i: nat)
      requires Valid() && initFlag != 0
      ensures i <= MAX_CNT
      ensures i < MAX_CNT ==> appName[i] == name
      ensures forall k | 0 <= k < i :: appName[k] != name
    {
      i := 0;
      while i < MAX_CNT
        invariant 0 <= i <= MAX_CNT
        invariant forall k | 0 <= k < i :: appName[k] != name
      {
        if name == appName[i] {
          return;
        }
        i := i + 1;
      }
    }

    method Set(name: string, data: Option<Data>, attached: bool) returns (r: bool)
      requires Valid() && |name| <= MAX_NAME
      modifies this, appName, perApp
      ensures Valid() && r == (attached && data.Some?)
      ensures Contents() == if r then SetRecord(old(Contents()), name, data.value) else old(Contents())
    {
      hide IndexOf, WellFormed;
      if attached {
        Init();
      }
      if !attached || data.None? {
        return false;
      }
      var i := Find(name);
      SlotOf(name, i);
      if i < MAX_CNT {
        Overwrite(i, data.value);
        return true;
      }
      i := Find(EMPTY);
      SlotOf(EMPTY, i);
      if i < MAX_CNT {
        Register(i, name, data.value);
      }
      return true;
    }

    /** What the search over the slots says about the records. */
    lemma SlotOf(name: string, i: nat)
      requires Valid() && initFlag != 0 && i <= MAX_CNT
      requires i < MAX_CNT ==> appName[i] == name
      requires forall k | 0 <= k < i :: appName[k] != name
      ensures if name == EMPTY then i == |names|
              else IndexOf(Used(), name) == if i < MAX_CNT then Some(i) else None
      ensures name != EMPTY && i < MAX_CNT ==> i < |names| && names[i] == name
      ensures name != EMPTY && i == MAX_CNT ==> name !in names
    {
      var e := Used();
      if name == EMPTY {
        assert forall k | 0 <= k < |names| :: appName[k] != EMPTY;
        assert |names| < MAX_CNT ==> appName[|names|] == EMPTY;
      } else if i < MAX_CNT {
        assert i < |names| && names[i] == name;
        FoundAt(e, i);
      } else {
        assert forall k | 0 <= k < |names| :: appName[k] == names[k];
        if k: nat :| k < |e| && e[k].appId == name {
          assert appName[k] == name;
        }
      }
    }

    /** The copy into a slot that was found: a used one, or the first free one. */
    method Overwrite(i: nat, data: Data)
      requires Valid() && initFlag != 0 && i < MAX_CNT && i <= |names|
      modifies perApp
      ensures Valid() && perApp[i] == data
      ensures i < |names| ==>
          Used() == old(Used())[i := data.(appId := names[i])] && Spare() == old(Spare())
      ensures i == |names| ==> Used() == old(Used()) && Spare() == data.(appId := EMPTY)
    {
      perApp[i] := data;
    }

    method Register(i: nat, name: string, data: Data)
      requires Valid() && initFlag != 0 && i == |names| < MAX_CNT
      requires name != EMPTY && name !in names
      modifies `names, appName, perApp
      ensures Valid() && Used() == old(Used()) + [data.(appId := name)] && Spare() == Unused()
    {
      perApp[i] := data;
      appName[i] := name;
      perApp[i] := perApp[i].(appId := name);
      names := names + [name];
    }

    /** Reading writes the id into the slot before copying it out. */
    method Get(name: string, wanted: bool, attached: bool) returns (r: bool, data: Option<Data>)
      requires Valid()
      modifies `initFlag, appName, perApp
      ensures Valid() && Contents() == old(Contents()) && r == data.Some?
      ensures data == if attached && wanted then Lookup(Contents(), name) else None
    {
      hide IndexOf, WellFormed;
      if attached {
        Init();
      }
      if !attached || !wanted {
        return false, None;
      }
      var i := Find(name);
      SlotOf(name, i);
      if i < MAX_CNT {
        Overwrite(i, perApp[i].(appId := name));
        assert Used() == old(Used());
        return true, Some(perApp[i]);
      }
      return false, None;
    }

    /** All used slots in turn. */
    method GetAll(data: array<Data>, attached: bool) returns (j: nat)
      requires Valid() && data.Length >= MAX_CNT && data != perApp
      modifies `initFlag, appName, perApp, data
      ensures Valid() && Contents() == old(Contents())
      ensures j == if attached then |Used()| else 0
      ensures data[..j] == Used()[..j]
      ensures data[j..] == old(data[j..])
    {
      hide WellFormed;
      if !attached {
        return 0;
      }
      Init();
      j := 0;
      var i := 0;
      ghost var e, spare := Used(), Spare();
      while i < MAX_CNT
        invariant 0 <= i <= MAX_CNT && Valid() && initFlag != 0 && Used() == e && Spare() == spare
        invariant j == if i <= |names| then i else |names|
        invariant forall k | 0 <= k < j :: data[k] == e[k]
        invariant data[j..] == old(data[j..])
      {
        if appName[i] != EMPTY {
          Overwrite(i, perApp[i].(appId := appName[i]));
          data[j] := perApp[i];
          j := j + 1;
        }
        i := i + 1;
      }
    }
  }

  /** A set and the get that follows it, for any name. */
  method SetThenGet(reg: Registry, name: string, d: Data) returns (r: bool, x: Option<Data>)
    requires reg.Valid() && |name| <= MAX_NAME
    modifies reg, reg.appName, reg.perApp
    ensures reg.Valid()
    ensures (r && x == Some(d.(appId := name)))
            <==> var e := old(reg.Contents()).records;
                 |e| < 10 || exists k | 0 <= k < 10 :: e[k].appId == name
  {
    hide HasSlot, SetRecord, Lookup;
    SetIsReadBackExactlyIf(reg.Contents(), name, d);
    var _ := reg.Set(name, Some(d), true);
    r, x := reg.Get(name, true, true);
  }

  /** A set leaves what is found under every other name as it was. */
  method SetBetweenGets(reg: Registry, name: string, d: Data, other: string)
    returns (before: Option<Data>, after: Option<Data>)
    requires reg.Valid() && |name| <= 122 && other != name && other != "null"
    modifies reg, reg.appName, reg.perApp
    ensures reg.Valid() && before == after
  {
    hide HasSlot, SetRecord, Lookup;
    SetFinds(reg.Contents(), name, d, other);
    var r;
    r, before := reg.Get(other, true, true);
    var _ := reg.Set(name, Some(d), true);
    r, after := reg.Get(other, true, true);
  }

  /** A run of sets on a new registry, and then everything in it. */
  method RegisterAll(sets: seq<Request>, data: array<Data>) returns (j: nat)
    requires data.Length >= 10 && forall i | 0 <= i < |sets| :: |sets[i].name| <= 122
    modifies data
    ensures j <= 10 && data[..j] == SetAll(sets).records && data[j..] == old(data[j..])
  {
    hide SetRecord;
    var reg := new Registry();
    var i := 0;
    while i < |sets|
      invariant 0 <= i <= |sets| && reg.Valid() && reg.Contents() == SetAll(sets[..i])
      invariant fresh(reg) && fresh(reg.appName) && fresh(reg.perApp) && data[..] == old(data[..])
    {
      assert sets[..i + 1][..i] == sets[..i];
      var _ := reg.Set(sets[i].name, Some(sets[i].data), true);
      i := i + 1;
    }
    assert sets[..|sets|] == sets;
    ghost var before := data[..];
    j := reg.GetAll(data, true);
    assert data[j..] == before[j..];
  }
}
