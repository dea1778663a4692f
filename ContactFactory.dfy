/*
 * A model of the DP-3T contact factory: the step that turns the Bluetooth
 * handshakes recorded by the SDK into contact records, one per ephemeral
 * identifier (EphID) that was heard with a credible signal strength.
 *
 * The factory works in two parts, modelled in the two styles they are
 * written in:
 *   - grouping: a loop that appends every handshake to the list of its
 *     EphID in a dictionary (method GroupByEphID, specified by Grouped);
 *   - emission: a compactMap over the groups that filters readings by RSSI
 *     and builds at most one Contact per group (functions RssiValues,
 *     ContactFor, Emit).
 * ContactSpec is an independent definition of the result, read straight off
 * the input sequence, and ContactsMatchSpec proves the two agree.
 */
module ContactFactory {

  datatype Option<+T> = None | Some(value: T)

  /** The identifier bytes a device broadcasts; the factory only compares them. */
  type EphID = seq<bv8>

  /** A point in time; the factory only orders and buckets it. */
  type Timestamp = int

  /** The calendar day a contact is filed under. */
  datatype DayDate = DayDate(day: int)

  /** One recorded Bluetooth observation; the RSSI is absent when it was not measured. */
  datatype Handshake = Handshake(ephID: EphID, timestamp: Timestamp, rssi: Option<real>)

  /** A credible (timestamp, RSSI) pair kept by the noise filter. */
  datatype Reading = Reading(timestamp: Timestamp, rssi: real)

  /** The record handed to persistence; identifier and known case are filled in later. */
  datatype Contact = Contact(
    identifier: Option<int>,
    ephID: EphID,
    day: DayDate,
    associatedKnownCase: Option<int>)

  /** Readings at or below this strength are noise. */
  const BadRssiThreshold: real := -85.0

  // ---------------------------------------------------------------------
  // Grouping
  // ---------------------------------------------------------------------

  /** The EphIDs that occur in a list of handshakes. */
  function EphIDs(hs: seq<Handshake>): set<EphID>
  {
    set h | h in hs :: h.ephID
  }

  /** The handshakes of `hs` that carry `id`, in their input order. */
  function WithEphID(hs: seq<Handshake>, id: EphID): (r: seq<Handshake>)
    ensures |r| <= |hs|
    ensures forall x :: x in r <==> x in hs && x.ephID == id
    ensures r == [] <==> id !in EphIDs(hs)
  {
    if hs == [] then []
    else if hs[0].ephID == id then [hs[0]] + WithEphID(hs[1..], id)
    else WithEphID(hs[1..], id)
  }

  /** The dictionary the grouping loop builds: every EphID of the input maps to its handshakes. */
  function Grouped(hs: seq<Handshake>): map<EphID, seq<Handshake>>
  {
    map id | id in EphIDs(hs) :: WithEphID(hs, id)
  }

  /** Index of the first handshake carrying `id`. */
  function FirstIndexOf(hs: seq<Handshake>, id: EphID): (i: nat)
    requires id in EphIDs(hs)
    ensures i < |hs| && hs[i].ephID == id
    ensures forall j :: 0 <= j < i ==> hs[j].ephID != id
  {
    if hs[0].ephID == id then 0
    else
      assert id in EphIDs(hs[1..]) by {
        var h :| h in hs && h.ephID == id;
        var k :| 0 <= k < |hs| && hs[k] == h;
        assert hs[1..][k - 1] == h;
      }
      1 + FirstIndexOf(hs[1..], id)
  }

  /** Filtering an input extended by one handshake extends the filtered list by it or by nothing. */
  lemma {:induction false} WithEphIDSnoc(hs: seq<Handshake>, h: Handshake, id: EphID)
    ensures WithEphID(hs + [h], id) == WithEphID(hs, id) + (if h.ephID == id then [h] else [])
  {
    if hs == [] {
      assert WithEphID([h], id) == (if h.ephID == id then [h] else []) + WithEphID([], id);
    } else {
      assert (hs + [h])[1..] == hs[1..] + [h];
      WithEphIDSnoc(hs[1..], h, id);
    }
  }

  /** One iteration of the grouping loop: the new handshake is appended to its group, or opens one. */
  lemma GroupedSnoc(hs: seq<Handshake>, h: Handshake)
    ensures Grouped(hs + [h]) ==
      Grouped(hs)[h.ephID := (if h.ephID in Grouped(hs) then Grouped(hs)[h.ephID] else []) + [h]]
  {
    var g, g' := Grouped(hs), Grouped(hs + [h]);
    assert EphIDs(hs + [h]) == EphIDs(hs) + {h.ephID} by {
      forall id | id in EphIDs(hs + [h]) ensures id in EphIDs(hs) + {h.ephID} {
        var x :| x in hs + [h] && x.ephID == id;
      }
    }
    forall id | id in g'
      ensures g'[id] == g[h.ephID := (if h.ephID in g then g[h.ephID] else []) + [h]][id]
    {
      WithEphIDSnoc(hs, h, id);
    }
  }

  /**
   * The grouping loop: walks the handshakes once and appends each to the
   * list stored under its EphID, creating the list on first sight.
   */
  method GroupByEphID(handshakes: seq<Handshake>) returns (groups: map<EphID, seq<Handshake>>)
    ensures groups == Grouped(handshakes)
  {
    groups := map[];
    for i := 0 to |handshakes|
      invariant groups == Grouped(handshakes[..i])
    {
      var handshake := handshakes[i];
      assert handshakes[..i + 1] == handshakes[..i] + [handshake];
      GroupedSnoc(handshakes[..i], handshake);
      if handshake.ephID in groups {
        groups := groups[handshake.ephID := groups[handshake.ephID] + [handshake]];
      } else {
        assert [] + [handshake] == [handshake];
        groups := groups[handshake.ephID := [handshake]];
      }
    }
    assert handshakes[..|handshakes|] == handshakes;
  }

  /** A filtered list is a subsequence: greedy matching of `s` against `t`. */
  predicate SubsequenceOf(s: seq<Handshake>, t: seq<Handshake>)
    decreases |t|
  {
    s == [] || (t != [] && if s[0] == t[0] then SubsequenceOf(s[1..], t[1..]) else SubsequenceOf(s, t[1..]))
  }

  /** Each group keeps its handshakes in the order they arrived. */
  lemma {:induction false} WithEphIDKeepsOrder(hs: seq<Handshake>, id: EphID)
    ensures SubsequenceOf(WithEphID(hs, id), hs)
  {
    if hs != [] {
      WithEphIDKeepsOrder(hs[1..], id);
      var rest := WithEphID(hs[1..], id);
      if hs[0].ephID != id && rest != [] {
        assert rest[0] in rest;
      }
    }
  }

  /** Each group holds every copy of each of its handshakes, and nothing else. */
  lemma {:induction false} WithEphIDCount(hs: seq<Handshake>, id: EphID, x: Handshake)
    ensures multiset(WithEphID(hs, id))[x] == if x.ephID == id then multiset(hs)[x] else 0
  {
    if hs != [] {
      WithEphIDCount(hs[1..], id, x);
      assert hs == [hs[0]] + hs[1..];
    }
  }

  /**
   * The dictionary partitions the input: its keys are the input's EphIDs,
   * each group holds only handshakes of its key, in input order, and every
   * handshake sits in the group of its own EphID as often as it was recorded.
   */
  lemma GroupsPartitionInput(hs: seq<Handshake>)
    ensures Grouped(hs).Keys == EphIDs(hs)
    ensures forall id, x :: id in Grouped(hs) && x in Grouped(hs)[id] ==> x.ephID == id
    ensures forall id :: id in Grouped(hs) ==> Grouped(hs)[id] != [] && SubsequenceOf(Grouped(hs)[id], hs)
    ensures forall x :: x in hs ==>
      x.ephID in Grouped(hs) && multiset(Grouped(hs)[x.ephID])[x] == multiset(hs)[x]
  {
    forall id | id in Grouped(hs)
      ensures Grouped(hs)[id] != [] && SubsequenceOf(Grouped(hs)[id], hs)
    {
      var h :| h in hs && h.ephID == id;
      assert h in WithEphID(hs, id);
      WithEphIDKeepsOrder(hs, id);
    }
    forall x | x in hs
      ensures x.ephID in Grouped(hs) && multiset(Grouped(hs)[x.ephID])[x] == multiset(hs)[x]
    {
      WithEphIDCount(hs, x.ephID, x);
    }
  }

  /** The first handshake of a group is the first handshake of the input that carries its EphID. */
  lemma {:induction false} WithEphIDHead(hs: seq<Handshake>, id: EphID)
    requires id in EphIDs(hs)
    ensures WithEphID(hs, id) != [] && WithEphID(hs, id)[0] == hs[FirstIndexOf(hs, id)]
  {
    if hs[0].ephID != id {
      assert id in EphIDs(hs[1..]) by {
        var i := FirstIndexOf(hs, id);
        assert hs[1..][i - 1] == hs[i];
      }
      WithEphIDHead(hs[1..], id);
    }
  }

  // ---------------------------------------------------------------------
  // Filtering and emission
  // ---------------------------------------------------------------------

  /** A handshake counts as a credible reading when its RSSI is present and above the noise floor. */
  predicate IsCredible(h: Handshake)
  {
    h.rssi.Some? && h.rssi.value > BadRssiThreshold
  }

  /** The boundary of the noise floor: absent and -85.0 are noise, -84.9 is credible. */
  lemma CredibleBoundary(id: EphID, t: Timestamp)
    ensures !IsCredible(Handshake(id, t, None))
    ensures !IsCredible(Handshake(id, t, Some(-85.0)))
    ensures IsCredible(Handshake(id, t, Some(-84.9)))
  {
  }

  /** The credible (timestamp, RSSI) pairs of a group, in the group's order. */
  function RssiValues(group: seq<Handshake>): (r: seq<Reading>)
    ensures |r| <= |group|
    ensures forall k :: 0 <= k < |r| ==> r[k].rssi > BadRssiThreshold
    ensures r == [] <==> forall h :: h in group ==> !IsCredible(h)
    ensures forall rd :: rd in r <==>
      exists h :: h in group && IsCredible(h) && rd == Reading(h.timestamp, h.rssi.value)
  {
    if group == [] then []
    else
      var rest := RssiValues(group[1..]);
      assert forall h :: h in group ==> h == group[0] || h in group[1..];
      if IsCredible(group[0]) then
        var r := [Reading(group[0].timestamp, group[0].rssi.value)] + rest;
        assert r[0].rssi > BadRssiThreshold && r[1..] == rest;
        r
      else
        rest
  }

  /** Some handshake of `hs` with EphID `id` is a credible reading. */
  predicate HasCredibleReading(hs: seq<Handshake>, id: EphID)
  {
    exists i :: 0 <= i < |hs| && hs[i].ephID == id && IsCredible(hs[i])
  }

  /** The EphIDs a set of contacts is about. */
  function ContactEphIDs(cs: set<Contact>): set<EphID>
  {
    set c | c in cs :: c.ephID
  }

  /**
   * The body of the compactMap over the dictionary: a group with no credible
   * reading yields nothing; otherwise one contact dated by the group's first
   * handshake, credible or not.
   */
  function ContactFor(ephID: EphID, group: seq<Handshake>, dayOf: Timestamp -> DayDate): (r: Option<Contact>)
    ensures r.Some? <==> exists h :: h in group && IsCredible(h)
    ensures r.Some? ==> r.value.ephID == ephID && r.value.identifier == None && r.value.associatedKnownCase == None
    ensures r.Some? ==> group != [] && r.value.day == dayOf(group[0].timestamp)
  {
    var rssiValues := RssiValues(group);
    if rssiValues == [] then None
    else Some(Contact(None, ephID, dayOf(group[0].timestamp), None))
  }

  /** The contacts the compactMap collects from a dictionary of groups. */
  function Emit(groups: map<EphID, seq<Handshake>>, dayOf: Timestamp -> DayDate): (r: set<Contact>)
    ensures forall c :: c in r ==> c.ephID in groups && ContactFor(c.ephID, groups[c.ephID], dayOf) == Some(c)
    ensures forall id :: id in groups ==>
      (id in ContactEphIDs(r) <==> exists h :: h in groups[id] && IsCredible(h))
  {
    set id | id in groups && ContactFor(id, groups[id], dayOf).Some? :: ContactFor(id, groups[id], dayOf).value
  }

  /**
   * The whole factory as a function of its inputs. The contact threshold is
   * accepted and never read.
   */
  function Contacts(handshakes: seq<Handshake>, contactThreshold: int, dayOf: Timestamp -> DayDate): set<Contact>
  {
    Emit(Grouped(handshakes), dayOf)
  }

  /**
   * Reference definition read straight off the input: every credible
   * handshake stands for the contact of its EphID, dated by the first
   * handshake of that EphID in the input.
   */
  function ContactSpec(hs: seq<Handshake>, dayOf: Timestamp -> DayDate): set<Contact>
  {
    set i | 0 <= i < |hs| && IsCredible(hs[i]) ::
      Contact(None, hs[i].ephID, dayOf(hs[FirstIndexOf(hs, hs[i].ephID)].timestamp), None)
  }

  /** Grouping followed by emission computes the reference definition. */
  lemma ContactsMatchSpec(hs: seq<Handshake>, contactThreshold: int, dayOf: Timestamp -> DayDate)
    ensures Contacts(hs, contactThreshold, dayOf) == ContactSpec(hs, dayOf)
  {
    var g := Grouped(hs);
    forall c | c in Contacts(hs, contactThreshold, dayOf) ensures c in ContactSpec(hs, dayOf) {
      var id :| id in g && ContactFor(id, g[id], dayOf).Some? && ContactFor(id, g[id], dayOf).value == c;
      var h :| h in g[id] && IsCredible(h);
      var i :| 0 <= i < |hs| && hs[i] == h;
      WithEphIDHead(hs, id);
    }
    forall c | c in ContactSpec(hs, dayOf) ensures c in Contacts(hs, contactThreshold, dayOf) {
      var i :| 0 <= i < |hs| && IsCredible(hs[i]) &&
        c == Contact(None, hs[i].ephID, dayOf(hs[FirstIndexOf(hs, hs[i].ephID)].timestamp), None);
      var id := hs[i].ephID;
      assert hs[i] in g[id];
      WithEphIDHead(hs, id);
      assert ContactFor(id, g[id], dayOf).value == c;
    }
  }

  /**
   * contacts(from:contactThreshold:): group the handshakes, then emit one
   * contact per group that has a credible reading.
   */
  method ContactsFrom(handshakes: seq<Handshake>, contactThreshold: int, dayOf: Timestamp -> DayDate)
    returns (contacts: set<Contact>)
    ensures contacts == ContactSpec(handshakes, dayOf)
    ensures forall c :: c in contacts ==> c.identifier == None && c.associatedKnownCase == None
    ensures forall c :: c in contacts ==> c.ephID in EphIDs(handshakes)
    ensures forall c, c' :: c in contacts && c' in contacts && c.ephID == c'.ephID ==> c == c'
    ensures forall id :: id in ContactEphIDs(contacts) <==> HasCredibleReading(handshakes, id)
    ensures forall c :: c in contacts ==>
      c.day == dayOf(handshakes[FirstIndexOf(handshakes, c.ephID)].timestamp)
  {
    var groups := GroupByEphID(handshakes);
    contacts := Emit(groups, dayOf);
    ContactsMatchSpec(handshakes, contactThreshold, dayOf);
    forall id | HasCredibleReading(handshakes, id)
      ensures id in ContactEphIDs(contacts)
    {
      var i :| 0 <= i < |handshakes| && handshakes[i].ephID == id && IsCredible(handshakes[i]);
      var c := Contact(None, id, dayOf(handshakes[FirstIndexOf(handshakes, id)].timestamp), None);
      assert c in contacts;
    }
    forall id | id in ContactEphIDs(contacts)
      ensures HasCredibleReading(handshakes, id)
    {
      var c :| c in contacts && c.ephID == id;
    }
  }

  /** The contact threshold has no effect on the result. */
  lemma ThresholdIgnored(hs: seq<Handshake>, t: int, t': int, dayOf: Timestamp -> DayDate)
    ensures Contacts(hs, t, dayOf) == Contacts(hs, t', dayOf)
  {
  }

  /** No handshakes, no contacts. */
  lemma EmptyInput(contactThreshold: int, dayOf: Timestamp -> DayDate)
    ensures Contacts([], contactThreshold, dayOf) == {}
  {
  }

  /** A group whose first handshake has no RSSI is still dated by that handshake. */
  lemma DayFromUnfilteredFirst(e: EphID, t1: Timestamp, t2: Timestamp, contactThreshold: int, dayOf: Timestamp -> DayDate)
    ensures Contacts([Handshake(e, t1, None), Handshake(e, t2, Some(-40.0))], contactThreshold, dayOf)
      == {Contact(None, e, dayOf(t1), None)}
  {
    var hs := [Handshake(e, t1, None), Handshake(e, t2, Some(-40.0))];
    ContactsMatchSpec(hs, contactThreshold, dayOf);
    assert FirstIndexOf(hs, e) == 0;
    assert IsCredible(hs[1]);
  }

  /**
   * Two identifiers: one heard at -60, -90 and -50 dBm, one heard once
   * without RSSI. Only the first yields a contact, dated by its first handshake.
   */
  lemma TwoIdentifierScenario(e1: EphID, e2: EphID, contactThreshold: int, dayOf: Timestamp -> DayDate)
    requires e1 != e2
    ensures Contacts([Handshake(e1, 30, Some(-60.0)), Handshake(e1, 70, Some(-90.0)),
                      Handshake(e1, 100, Some(-50.0)), Handshake(e2, 10, None)], contactThreshold, dayOf)
      == {Contact(None, e1, dayOf(30), None)}
  {
    var hs := [Handshake(e1, 30, Some(-60.0)), Handshake(e1, 70, Some(-90.0)),
               Handshake(e1, 100, Some(-50.0)), Handshake(e2, 10, None)];
    ContactsMatchSpec(hs, contactThreshold, dayOf);
    TwoIdentifierSpec(hs, e1, e2, dayOf);
  }

  /** The reference definition on the two-identifier input. */
  lemma TwoIdentifierSpec(hs: seq<Handshake>, e1: EphID, e2: EphID, dayOf: Timestamp -> DayDate)
    requires e1 != e2
    requires hs == [Handshake(e1, 30, Some(-60.0)), Handshake(e1, 70, Some(-90.0)),
                    Handshake(e1, 100, Some(-50.0)), Handshake(e2, 10, None)]
    ensures ContactSpec(hs, dayOf) == {Contact(None, e1, dayOf(30), None)}
  {
    var expected := Contact(None, e1, dayOf(30), None);
    assert FirstIndexOf(hs, e1) == 0;
    forall c | c in ContactSpec(hs, dayOf) ensures c == expected {
      var i :| 0 <= i < |hs| && IsCredible(hs[i]) &&
        c == Contact(None, hs[i].ephID, dayOf(hs[FirstIndexOf(hs, hs[i].ephID)].timestamp), None);
      assert i == 0 || i == 2;
    }
    assert IsCredible(hs[0]);
    assert expected in ContactSpec(hs, dayOf);
  }
}
