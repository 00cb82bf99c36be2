/**
 Deleting many keys at once: every key is routed on its own, the keys are
 grouped by backend, and what the backends report is translated back.
 */
module BatchDelete {
  import opened Text
  import opened Ordering

  /** A routing decision: backend and rewritten key. */
  datatype Target = Target(backend: string, rewrittenKey: string)

  datatype KeyMapping = KeyMapping(virtualKey: string, rewrittenKey: string, backendID: string, physicalKey: string)

  /**
   What the executor works with: the matcher, the key prefixes of the backends
   that have a client, and the decision and prefix to fall back on.
   */
  datatype Executor = Executor(route: string -> Option<Target>, prefixes: map<string, string>,
                               fallback: Target, fallbackPrefix: string)
  {
    /** Where one key goes; routing errors and missing clients take the fallback. */
    function MapKey(key: string): KeyMapping {
      var target := match route(key) case Some(t) => t case None => fallback;
      if target.backend in prefixes then
        KeyMapping(key, target.rewrittenKey, target.backend, prefixes[target.backend] + target.rewrittenKey)
      else
        KeyMapping(key, fallback.rewrittenKey, fallback.backend, fallbackPrefix + fallback.rewrittenKey)
    }

    function MapKeys(keys: seq<string>): seq<KeyMapping> {
      seq(|keys|, i requires 0 <= i < |keys| => MapKey(keys[i]))
    }
  }

  /** The mappings of one backend, in request order. */
  function Group(mappings: seq<KeyMapping>, id: string): seq<KeyMapping> {
    if mappings == [] then []
    else
      var n := |mappings| - 1;
      Group(mappings[..n], id) + if mappings[n].backendID == id then [mappings[n]] else []
  }

  type Groups = map<string, seq<KeyMapping>>

  ghost predicate GroupsOf(groups: Groups, mappings: seq<KeyMapping>) {
    && (forall id :: id in groups <==> Group(mappings, id) != [])
    && (forall id :: id in groups ==> groups[id] == Group(mappings, id))
  }

  /** The loop that routes each key and appends it to its backend's group. */
  method GroupKeys(e: Executor, keys: seq<string>) returns (keysByBackend: Groups)
    ensures GroupsOf(keysByBackend, e.MapKeys(keys))
  {
    hide Executor.MapKey, GroupsOf, Group;
    keysByBackend := map[];
    NoGroups();
    assert keys[..0] == [] && e.MapKeys([]) == [];
    for i := 0 to |keys|
      invariant GroupsOf(keysByBackend, e.MapKeys(keys[..i]))
    {
      var mapping := e.MapKey(keys[i]);
      assert e.MapKeys(keys[..i + 1]) == e.MapKeys(keys[..i]) + [mapping];
      AddToGroup(keysByBackend, e.MapKeys(keys[..i]), mapping);
      var id := mapping.backendID;
      var before := if id in keysByBackend then keysByBackend[id] else [];
      keysByBackend := keysByBackend[id := before + [mapping]];
    }
    assert keys[..|keys|] == keys;
  }

  lemma NoGroups()
    ensures GroupsOf(map[], [])
  {}

  lemma {:induction false} AddToGroup(groups: Groups, mappings: seq<KeyMapping>, m: KeyMapping)
    requires GroupsOf(groups, mappings)
    ensures var before := if m.backendID in groups then groups[m.backendID] else [];
            GroupsOf(groups[m.backendID := before + [m]], mappings + [m])
  {
    hide Group;
    forall id
      ensures Group(mappings + [m], id) == Group(mappings, id) + if m.backendID == id then [m] else []
    {
      GroupAppend(mappings, m, id);
    }
    var before := if m.backendID in groups then groups[m.backendID] else [];
    assert before == Group(mappings, m.backendID);
  }

  lemma {:induction false} GroupAppend(mappings: seq<KeyMapping>, m: KeyMapping, id: string)
    ensures Group(mappings + [m], id) == Group(mappings, id) + if m.backendID == id then [m] else []
  {
    assert (mappings + [m])[..|mappings|] == mappings;
  }

  /** The map from physical to virtual keys of a group; a later key takes the place of an earlier one. */
  function PhysicalToVirtual(group: seq<KeyMapping>): map<string, string> {
    if group == [] then map[]
    else
      var n := |group| - 1;
      PhysicalToVirtual(group[..n])[group[n].physicalKey := group[n].virtualKey]
  }

  /** A reported key under its virtual name, or as it is if it has none. */
  function NameBack(names: map<string, string>, d: string): string {
    if d in names && names[d] != "" then names[d] else d
  }

  function NamesBack(names: map<string, string>, reported: seq<string>): seq<string> {
    seq(|reported|, i requires 0 <= i < |reported| => NameBack(names, reported[i]))
  }

  /** A delete request to a backend, for the keys asked: the keys it reports deleted, or None for an error. */
  type DeleteObjects = (string, seq<string>) -> Option<seq<string>>

  /** What each backend answers to its one request. */
  type Replies = string -> Option<seq<string>>

  function PhysicalKeys(group: seq<KeyMapping>): seq<string> {
    seq(|group|, i requires 0 <= i < |group| => group[i].physicalKey)
  }

  /** A backend is asked for the physical keys of its group, in request order. */
  function Answers(deleteObjects: DeleteObjects, mappings: seq<KeyMapping>): Replies {
    id => deleteObjects(id, PhysicalKeys(Group(mappings, id)))
  }

  predicate Succeeds(e: Executor, replies: Replies, id: string) { id in e.prefixes && replies(id).Some? }

  /** The response: the reported keys of the backends in turn. */
  function Deleted(e: Executor, mappings: seq<KeyMapping>, replies: Replies, order: seq<string>): seq<string> {
    if order == [] then []
    else
      (if Succeeds(e, replies, order[0]) then
         NamesBack(PhysicalToVirtual(Group(mappings, order[0])), replies(order[0]).value)
       else [])
      + Deleted(e, mappings, replies, order[1..])
  }

  lemma {:induction false} DeletedAppend(e: Executor, mappings: seq<KeyMapping>, replies: Replies,
                                         order: seq<string>, id: string)
    ensures Deleted(e, mappings, replies, order + [id])
            == Deleted(e, mappings, replies, order)
               + if Succeeds(e, replies, id) then NamesBack(PhysicalToVirtual(Group(mappings, id)), replies(id).value)
                 else []
  {
    if order == [] {
      assert order + [id] == [id] && [id][1..] == [];
    } else {
      assert (order + [id])[1..] == order[1..] + [id];
      DeletedAppend(e, mappings, replies, order[1..], id);
    }
  }

  /** The orders in which the groups may be visited: each backend once. */
  ghost predicate Visits(order: seq<string>, mappings: seq<KeyMapping>) {
    Distinct(order) && forall id :: id in order <==> Group(mappings, id) != []
  }

  /** The loop over the groups, which the map yields in any order. */
  method ExecuteDeletes(e: Executor, keys: seq<string>, deleteObjects: DeleteObjects) returns (allDeleted: seq<string>)
    ensures var mappings := e.MapKeys(keys);
            exists order ::
              Visits(order, mappings) && allDeleted == Deleted(e, mappings, Answers(deleteObjects, mappings), order)
  {
    var keysByBackend := GroupKeys(e, keys);
    ghost var mappings := e.MapKeys(keys);
    ghost var replies := Answers(deleteObjects, mappings);
    allDeleted := [];
    ghost var order: seq<string> := [];
    var todo := keysByBackend.Keys;
    while todo != {}
      invariant todo <= keysByBackend.Keys
      invariant Distinct(order) && forall id :: id in order <==> id in keysByBackend && id !in todo
      invariant allDeleted == Deleted(e, mappings, replies, order)
    {
      hide Group, PhysicalToVirtual, NamesBack, Deleted, PhysicalKeys;
      var backendID :| backendID in todo;
      todo := todo - {backendID};
      DeletedAppend(e, mappings, replies, order, backendID);
      order := order + [backendID];
      if backendID !in e.prefixes {
        continue;
      }
      var objectIds := ObjectIds(keysByBackend[backendID]);
      match deleteObjects(backendID, objectIds) {
        case None =>
        case Some(output) =>
          var physicalToVirtual := BuildNames(keysByBackend[backendID]);
          var names := TranslateBack(physicalToVirtual, output);
          allDeleted := allDeleted + names;
      }
    }
    assert Visits(order, mappings);
  }

  /** The loop that builds one request. */
  method ObjectIds(group: seq<KeyMapping>) returns (objectIds: seq<string>)
    ensures objectIds == PhysicalKeys(group)
  {
    objectIds := [];
    for i := 0 to |group|
      invariant objectIds == PhysicalKeys(group[..i])
    {
      assert PhysicalKeys(group[..i + 1]) == PhysicalKeys(group[..i]) + [group[i].physicalKey];
      objectIds := objectIds + [group[i].physicalKey];
    }
    assert group[..|group|] == group;
  }

  /** The loop over the keys that one backend reports. */
  method TranslateBack(physicalToVirtual: map<string, string>, output: seq<string>) returns (names: seq<string>)
    ensures names == NamesBack(physicalToVirtual, output)
  {
    names := [];
    for i := 0 to |output|
      invariant names == NamesBack(physicalToVirtual, output[..i])
    {
      var d := output[i];
      var virtualKey := if d in physicalToVirtual then physicalToVirtual[d] else "";
      if virtualKey == "" {
        virtualKey := d;
      }
      assert NamesBack(physicalToVirtual, output[..i + 1]) == NamesBack(physicalToVirtual, output[..i]) + [virtualKey];
      names := names + [virtualKey];
    }
    assert output[..|output|] == output;
  }

  method BuildNames(group: seq<KeyMapping>) returns (physicalToVirtual: map<string, string>)
    ensures physicalToVirtual == PhysicalToVirtual(group)
  {
    physicalToVirtual := map[];
    for i := 0 to |group|
      invariant physicalToVirtual == PhysicalToVirtual(group[..i])
    {
      assert group[..i + 1][..i] == group[..i];
      physicalToVirtual := physicalToVirtual[group[i].physicalKey := group[i].virtualKey];
    }
    assert group[..|group|] == group;
  }

  // ----- conservation -----

  lemma {:induction false} GroupElements(mappings: seq<KeyMapping>, id: string)
    ensures forall m :: m in Group(mappings, id) <==> m in mappings && m.backendID == id
  {
    if mappings != [] {
      var n := |mappings| - 1;
      GroupElements(mappings[..n], id);
      assert mappings == mappings[..n] + [mappings[n]];
    }
  }

  /** A successful backend reports exactly the keys it was asked to delete, in any order. */
  ghost predicate Honest(replies: Replies, mappings: seq<KeyMapping>) {
    forall id :: replies(id).Some? ==>
      multiset(replies(id).value) == multiset(PhysicalKeys(Group(mappings, id)))
  }

  /** The name a key should be reported under. */
  function Shown(m: KeyMapping): string { if m.virtualKey == "" then m.physicalKey else m.virtualKey }

  /** The names of all requested keys whose backend succeeded, each as often as it was requested. */
  function Expected(e: Executor, mappings: seq<KeyMapping>, replies: Replies): multiset<string> {
    if mappings == [] then multiset{}
    else
      var n := |mappings| - 1;
      Expected(e, mappings[..n], replies)
      + if Succeeds(e, replies, mappings[n].backendID) then multiset{Shown(mappings[n])} else multiset{}
  }

  /** Among the keys of backends that have a client, backend and physical key determine the name. */
  predicate Determined(e: Executor, mappings: seq<KeyMapping>) {
    forall i, j :: 0 <= i < |mappings| && 0 <= j < |mappings|
                   && mappings[i].backendID in e.prefixes && mappings[i].backendID == mappings[j].backendID
                   && mappings[i].physicalKey == mappings[j].physicalKey
                   ==> Shown(mappings[i]) == Shown(mappings[j])
  }

  /** The map holds the virtual key of the last mapping with a given physical key. */
  lemma {:induction false} NamesHold(group: seq<KeyMapping>, d: string)
    ensures d in PhysicalToVirtual(group) <==> exists m :: m in group && m.physicalKey == d
    ensures d in PhysicalToVirtual(group) ==>
              exists m :: m in group && m.physicalKey == d && m.virtualKey == PhysicalToVirtual(group)[d]
  {
    if group != [] {
      var n := |group| - 1;
      NamesHold(group[..n], d);
      assert group == group[..n] + [group[n]];
    }
  }

  /** The name that the mapping m comes back under. */
  function ComesBack(mappings: seq<KeyMapping>, m: KeyMapping): string {
    NameBack(PhysicalToVirtual(Group(mappings, m.backendID)), m.physicalKey)
  }

  lemma {:induction false} ComesBackAs(mappings: seq<KeyMapping>, m: KeyMapping)
    requires m in mappings
    ensures exists l :: l in mappings && l.backendID == m.backendID && l.physicalKey == m.physicalKey
                        && ComesBack(mappings, m) == Shown(l)
  {
    var group := Group(mappings, m.backendID);
    GroupElements(mappings, m.backendID);
    NamesHold(group, m.physicalKey);
    assert m in group;
    var l :| l in group && l.physicalKey == m.physicalKey
             && l.virtualKey == PhysicalToVirtual(group)[m.physicalKey];
  }

  predicate SameTarget(m: KeyMapping, l: KeyMapping) {
    m.backendID == l.backendID && m.physicalKey == l.physicalKey
  }

  lemma {:induction false} LastNameHeld(mappings: seq<KeyMapping>, j: nat)
    requires j < |mappings| && forall k :: j < k < |mappings| ==> !SameTarget(mappings[k], mappings[j])
    ensures var m, names := mappings[j], PhysicalToVirtual(Group(mappings, mappings[j].backendID));
            m.physicalKey in names && names[m.physicalKey] == m.virtualKey
  {
    var n, m := |mappings| - 1, mappings[j];
    var before := Group(mappings[..n], m.backendID);
    if mappings[n].backendID == m.backendID {
      assert (before + [mappings[n]])[..|before|] == before;
    } else {
      assert before + [] == before;
    }
    if j < n {
      LastNameHeld(mappings[..n], j);
    }
  }

  /** Keys that share a target all come back under the name of the last of them. */
  lemma {:induction false} LastNameWins(mappings: seq<KeyMapping>, i: nat, j: nat)
    requires i < |mappings| && j < |mappings| && SameTarget(mappings[i], mappings[j])
    requires forall k :: j < k < |mappings| ==> !SameTarget(mappings[k], mappings[j])
    ensures ComesBack(mappings, mappings[i]) == Shown(mappings[j])
  {
    hide PhysicalToVirtual, Group;
    LastNameHeld(mappings, j);
  }

  lemma {:induction false} NamesBackPermuted(names: map<string, string>, a: seq<string>, b: seq<string>)
    requires multiset(a) == multiset(b)
    ensures multiset(NamesBack(names, a)) == multiset(NamesBack(names, b))
  {
    hide NamesBack, NameBack;
    SameElements(a, b);
    if a != [] {
      assert a[0] in a;
      var before, after := TakeOut(b, a[0]);
      assert a == [] + [a[0]] + a[1..] && [] + a[1..] == a[1..];
      CancelOne(a[0], a[1..], before + after);
      NamesBackPermuted(names, a[1..], before + after);
      NamesBackTakeOut(names, before, a[0], after);
      NamesBackTakeOut(names, [], a[0], a[1..]);
    }
  }

  lemma {:induction false} TakeOut(b: seq<string>, x: string) returns (before: seq<string>, after: seq<string>)
    requires x in b
    ensures b == before + [x] + after && multiset(b) == multiset{x} + multiset(before + after)
  {
    var i :| 0 <= i < |b| && b[i] == x;
    before, after := b[..i], b[i + 1..];
    assert b == before + [x] + after;
  }

  lemma {:induction false} CancelOne(x: string, a: seq<string>, b: seq<string>)
    requires multiset([] + [x] + a) == multiset{x} + multiset(b)
    ensures multiset(a) == multiset(b)
  {
    assert multiset([] + [x] + a) == multiset{x} + multiset(a);
    var m, n := multiset(a), multiset(b);
    assert m == (multiset{x} + m) - multiset{x} == (multiset{x} + n) - multiset{x} == n;
  }

  lemma {:induction false} NamesBackTakeOut(names: map<string, string>, before: seq<string>, x: string,
                                            after: seq<string>)
    ensures multiset(NamesBack(names, before + [x] + after))
            == multiset{NameBack(names, x)} + multiset(NamesBack(names, before + after))
  {
    hide NamesBack, NameBack;
    NamesBackConcat(names, before, after);
    NamesBackConcat(names, before + [x], after);
    NamesBackConcat(names, before, [x]);
    NamesBackOne(names, x);
  }

  lemma NamesBackOne(names: map<string, string>, x: string)
    ensures NamesBack(names, [x]) == [NameBack(names, x)]
  {}

  lemma NamesBackConcat(names: map<string, string>, a: seq<string>, b: seq<string>)
    ensures NamesBack(names, a + b) == NamesBack(names, a) + NamesBack(names, b)
  {}

  /** The names that the mappings of one group come back under. */
  function GroupNames(mappings: seq<KeyMapping>, group: seq<KeyMapping>): seq<string> {
    seq(|group|, i requires 0 <= i < |group| => ComesBack(mappings, group[i]))
  }

  lemma {:induction false} ReplyNames(e: Executor, mappings: seq<KeyMapping>, replies: Replies, id: string)
    requires Honest(replies, mappings) && replies(id).Some?
    ensures multiset(NamesBack(PhysicalToVirtual(Group(mappings, id)), replies(id).value))
            == multiset(GroupNames(mappings, Group(mappings, id)))
  {
    hide NameBack, PhysicalToVirtual;
    var group := Group(mappings, id);
    var names := PhysicalToVirtual(group);
    GroupElements(mappings, id);
    NamesBackPermuted(names, replies(id).value, PhysicalKeys(group));
    assert forall i :: 0 <= i < |group| ==> group[i] in group;
    assert NamesBack(names, PhysicalKeys(group)) == GroupNames(mappings, group);
  }

  /** The names under which the first n mappings come back, if their backend succeeded. */
  function Returned(e: Executor, mappings: seq<KeyMapping>, replies: Replies, n: nat): multiset<string>
    requires n <= |mappings|
  {
    if n == 0 then multiset{}
    else
      Returned(e, mappings, replies, n - 1)
      + if Succeeds(e, replies, mappings[n - 1].backendID) then multiset{ComesBack(mappings, mappings[n - 1])}
        else multiset{}
  }

  /** The groups visited in order, restricted to the first n mappings. */
  function ReturnedBy(e: Executor, mappings: seq<KeyMapping>, replies: Replies, n: nat, order: seq<string>)
    : multiset<string>
    requires n <= |mappings|
  {
    if order == [] then multiset{}
    else
      (if Succeeds(e, replies, order[0]) then multiset(GroupNames(mappings, Group(mappings[..n], order[0])))
       else multiset{})
      + ReturnedBy(e, mappings, replies, n, order[1..])
  }

  lemma {:induction false} DeletedNames(e: Executor, mappings: seq<KeyMapping>, replies: Replies, order: seq<string>)
    requires Honest(replies, mappings)
    ensures multiset(Deleted(e, mappings, replies, order))
            == ReturnedBy(e, mappings, replies, |mappings|, order)
  {
    if order != [] {
      hide ComesBack, NamesBack, Group, PhysicalToVirtual;
      assert mappings[..|mappings|] == mappings;
      DeletedNames(e, mappings, replies, order[1..]);
      if Succeeds(e, replies, order[0]) {
        ReplyNames(e, mappings, replies, order[0]);
      }
    }
  }

  /** One more mapping adds its name to its own group and to no other. */
  lemma {:induction false} AddMapping(e: Executor, mappings: seq<KeyMapping>, replies: Replies, n: nat,
                                      order: seq<string>)
    requires n < |mappings| && Distinct(order)
    ensures var m := mappings[n];
            ReturnedBy(e, mappings, replies, n + 1, order)
            == ReturnedBy(e, mappings, replies, n, order)
               + if m.backendID in order && Succeeds(e, replies, m.backendID) then multiset{ComesBack(mappings, m)}
                 else multiset{}
  {
    hide ComesBack, Succeeds, GroupNames, Group, Distinct;
    if order != [] {
      DistinctTail(order);
      AddMapping(e, mappings, replies, n, order[1..]);
      GroupGrows(mappings, n, order[0]);
    }
  }

  lemma {:induction false} DistinctTail(order: seq<string>)
    requires Distinct(order) && order != []
    ensures Distinct(order[1..]) && order[0] !in order[1..]
    ensures forall id :: id in order <==> id == order[0] || id in order[1..]
  {
    assert order == [order[0]] + order[1..];
  }

  lemma {:induction false} GroupGrows(mappings: seq<KeyMapping>, n: nat, id: string)
    requires n < |mappings|
    ensures multiset(GroupNames(mappings, Group(mappings[..n + 1], id)))
            == multiset(GroupNames(mappings, Group(mappings[..n], id)))
               + if mappings[n].backendID == id then multiset{ComesBack(mappings, mappings[n])} else multiset{}
  {
    hide ComesBack;
    var m, before := mappings[n], Group(mappings[..n], id);
    assert mappings[..n + 1][..n] == mappings[..n];
    if m.backendID == id {
      assert GroupNames(mappings, before + [m]) == GroupNames(mappings, before) + [ComesBack(mappings, m)];
    } else {
      assert before + [] == before;
    }
  }

  lemma {:induction false} EmptyGroups(e: Executor, mappings: seq<KeyMapping>, replies: Replies, order: seq<string>)
    ensures ReturnedBy(e, mappings, replies, 0, order) == multiset{}
  {
    if order != [] {
      EmptyGroups(e, mappings, replies, order[1..]);
    }
  }

  lemma {:induction false} VisitedOnce(e: Executor, mappings: seq<KeyMapping>, replies: Replies, n: nat,
                                       order: seq<string>)
    requires n <= |mappings| && Distinct(order) && forall m :: m in mappings ==> m.backendID in order
    ensures ReturnedBy(e, mappings, replies, n, order) == Returned(e, mappings, replies, n)
  {
    hide ReturnedBy, ComesBack, Succeeds, Returned;
    if n == 0 {
      EmptyGroups(e, mappings, replies, order);
      NothingCounted(e, mappings, replies);
    } else {
      VisitedOnce(e, mappings, replies, n - 1, order);
      AddMapping(e, mappings, replies, n - 1, order);
      ReturnedStep(e, mappings, replies, n - 1);
      assert mappings[n - 1] in mappings;
    }
  }

  lemma ReturnedStep(e: Executor, mappings: seq<KeyMapping>, replies: Replies, n: nat)
    requires n < |mappings|
    ensures Returned(e, mappings, replies, n + 1)
            == Returned(e, mappings, replies, n)
               + if Succeeds(e, replies, mappings[n].backendID) then multiset{ComesBack(mappings, mappings[n])}
                 else multiset{}
  {}

  lemma {:induction false} VisitsAll(order: seq<string>, mappings: seq<KeyMapping>)
    requires Visits(order, mappings)
    ensures forall m :: m in mappings ==> m.backendID in order
  {
    forall m | m in mappings
      ensures m.backendID in order
    {
      GroupElements(mappings, m.backendID);
    }
  }

  /** Whatever order the backends are visited in, the response is each mapping's name, once. */
  lemma {:induction false} ResponseNames(e: Executor, mappings: seq<KeyMapping>, replies: Replies, order: seq<string>)
    requires Honest(replies, mappings) && Visits(order, mappings)
    ensures multiset(Deleted(e, mappings, replies, order)) == Returned(e, mappings, replies, |mappings|)
  {
    hide Deleted, Returned, ReturnedBy, Honest;
    VisitsAll(order, mappings);
    DeletedNames(e, mappings, replies, order);
    VisitedOnce(e, mappings, replies, |mappings|, order);
  }

  lemma {:induction false} DeterminedReturns(e: Executor, mappings: seq<KeyMapping>, replies: Replies, n: nat)
    requires n <= |mappings| && Determined(e, mappings)
    ensures Returned(e, mappings, replies, n) == Expected(e, mappings[..n], replies)
  {
    if n > 0 {
      hide ComesBack, Shown;
      DeterminedReturns(e, mappings, replies, n - 1);
      assert mappings[..n][..n - 1] == mappings[..n - 1];
      assert mappings[n - 1] in mappings;
      ComesBackAs(mappings, mappings[n - 1]);
    }
  }

  /**
   No key is lost and none is invented: if backend and physical key determine
   the virtual key, the response names every requested key of every succeeding
   backend, as often as it was requested, for any order of the backends.
   */
  lemma {:induction false} DeleteConserves(e: Executor, keys: seq<string>, replies: Replies, order: seq<string>)
    requires Determined(e, e.MapKeys(keys)) && Honest(replies, e.MapKeys(keys)) && Visits(order, e.MapKeys(keys))
    ensures multiset(Deleted(e, e.MapKeys(keys), replies, order)) == Expected(e, e.MapKeys(keys), replies)
  {
    hide Deleted, Returned, Expected, Honest, Visits, Determined;
    var mappings := e.MapKeys(keys);
    ResponseNames(e, mappings, replies, order);
    DeterminedReturns(e, mappings, replies, |mappings|);
    assert mappings[..|mappings|] == mappings;
  }

  // ----- and when it does not -----

  lemma {:induction false} ReturnedFrom(e: Executor, mappings: seq<KeyMapping>, replies: Replies, n: nat, x: string)
    requires n <= |mappings| && x in Returned(e, mappings, replies, n)
    ensures exists m :: m in mappings && ComesBack(mappings, m) == x
  {
    hide ComesBack;
    var m := mappings[n - 1];
    assert m in mappings;
    if ComesBack(mappings, m) != x {
      ReturnedFrom(e, mappings, replies, n - 1, x);
    }
  }

  lemma {:induction false} ExpectedHas(e: Executor, mappings: seq<KeyMapping>, replies: Replies, i: nat)
    requires i < |mappings| && Succeeds(e, replies, mappings[i].backendID)
    ensures Shown(mappings[i]) in Expected(e, mappings, replies)
  {
    var n := |mappings| - 1;
    if i < n {
      ExpectedHas(e, mappings[..n], replies, i);
    }
  }

  /** The name of x is also the physical key of a requested empty key, which is reported as it is. */
  predicate Borrowed(e: Executor, keys: seq<string>, x: string) { "" in keys && x == e.MapKey("").physicalKey }

  /** Of two names that share a backend and a physical key, one is never reported or the other too often. */
  lemma {:induction false} CollisionLoses(e: Executor, keys: seq<string>, replies: Replies, order: seq<string>, i: nat,
                                          j: nat)
    requires i < |keys| && j < |keys|
    requires Honest(replies, e.MapKeys(keys)) && Visits(order, e.MapKeys(keys))
    requires var m, l := e.MapKey(keys[i]), e.MapKey(keys[j]);
             m.backendID == l.backendID && m.physicalKey == l.physicalKey && Shown(m) != Shown(l)
             && Succeeds(e, replies, m.backendID)
    ensures multiset(Deleted(e, e.MapKeys(keys), replies, order)) != Expected(e, e.MapKeys(keys), replies)
  {
    hide Deleted, Returned, Expected, Honest, Visits, Succeeds, ComesBack, Shown, Executor.MapKey, Borrowed;
    var mappings := e.MapKeys(keys);
    ResponseNames(e, mappings, replies, order);
    SameClass(mappings, mappings[i], mappings[j]);
    var name := ComesBack(mappings, mappings[i]);
    var lost := if name == Shown(mappings[i]) then j else i;
    if Borrowed(e, keys, Shown(mappings[lost])) {
      NamedTooOften(e, keys, replies, lost);
    } else {
      NeverNamed(e, keys, replies, lost);
    }
  }

  lemma {:induction false} NeverNamed(e: Executor, keys: seq<string>, replies: Replies, lost: nat)
    requires lost < |keys| && Succeeds(e, replies, e.MapKey(keys[lost]).backendID)
    requires var m := e.MapKey(keys[lost]); Shown(m) != ComesBack(e.MapKeys(keys), m) && !Borrowed(e, keys, Shown(m))
    ensures Returned(e, e.MapKeys(keys), replies, |keys|) != Expected(e, e.MapKeys(keys), replies)
  {
    hide Returned, Expected, Succeeds, ComesBack, Borrowed;
    var mappings := e.MapKeys(keys);
    var x := Shown(mappings[lost]);
    ExpectedHas(e, mappings, replies, lost);
    if x in Returned(e, mappings, replies, |mappings|) {
      ReturnedFrom(e, mappings, replies, |mappings|, x);
      var m :| m in mappings && ComesBack(mappings, m) == x;
      ComesBackAs(mappings, m);
      var l :| l in mappings && l.backendID == m.backendID && l.physicalKey == m.physicalKey && x == Shown(l);
      OneOfThatName(e, keys, l, mappings[lost]);
      SameClass(mappings, m, l);
    }
  }

  lemma {:induction false} NamedTooOften(e: Executor, keys: seq<string>, replies: Replies, lost: nat)
    requires lost < |keys| && Succeeds(e, replies, e.MapKey(keys[lost]).backendID)
    requires var m := e.MapKey(keys[lost]); Shown(m) != ComesBack(e.MapKeys(keys), m) && Borrowed(e, keys, Shown(m))
    ensures Returned(e, e.MapKeys(keys), replies, |keys|) != Expected(e, e.MapKeys(keys), replies)
  {
    hide Returned, Expected, Succeeds, ComesBack, Shown, Executor.MapKey;
    var mappings := e.MapKeys(keys);
    var name := ComesBack(mappings, mappings[lost]);
    assert mappings[lost] in mappings;
    ComesBackAs(mappings, mappings[lost]);
    var l :| l in mappings && l.backendID == mappings[lost].backendID
             && l.physicalKey == mappings[lost].physicalKey && name == Shown(l);
    forall m | m in mappings && Shown(m) == name
      ensures ComesBack(mappings, m) == name
    {
      OneOfThatName(e, keys, m, l);
      SameClass(mappings, l, mappings[lost]);
    }
    CountsMore(e, mappings, replies, |mappings|, name, lost);
    assert mappings[..|mappings|] == mappings;
  }

  /** A name that is not borrowed belongs to one key. */
  lemma {:induction false} OneOfThatName(e: Executor, keys: seq<string>, m: KeyMapping, l: KeyMapping)
    requires m in e.MapKeys(keys) && l in e.MapKeys(keys) && Shown(m) == Shown(l) && !Borrowed(e, keys, Shown(l))
    ensures m == l
  {
    MappedFromKey(e, keys, m);
    MappedFromKey(e, keys, l);
  }

  lemma {:induction false} MappedFromKey(e: Executor, keys: seq<string>, m: KeyMapping)
    requires m in e.MapKeys(keys)
    ensures m.virtualKey in keys && m == e.MapKey(m.virtualKey)
  {
    hide Executor.MapKey;
    var mappings := e.MapKeys(keys);
    var k :| 0 <= k < |mappings| && mappings[k] == m;
    MapKeyKeeps(e, keys[k]);
    assert keys[k] in keys;
  }

  /** All keys of that name come back under it. */
  predicate NameKept(mappings: seq<KeyMapping>, name: string) {
    forall m :: m in mappings && Shown(m) == name ==> ComesBack(mappings, m) == name
  }

  /** If all keys of a name come back under it, and another key does too, the name is reported too often. */
  lemma {:induction false} CountsMore(e: Executor, mappings: seq<KeyMapping>, replies: Replies, n: nat, name: string,
                                      lost: nat)
    requires n <= |mappings| && lost < |mappings| && Succeeds(e, replies, mappings[lost].backendID)
    requires ComesBack(mappings, mappings[lost]) == name != Shown(mappings[lost])
    requires NameKept(mappings, name)
    ensures Returned(e, mappings, replies, n)[name]
            >= Expected(e, mappings[..n], replies)[name] + if lost < n then 1 else 0
    decreases n
  {
    hide ComesBack, Shown, Succeeds, NameKept, Returned, Expected;
    if n == 0 {
      NothingCounted(e, mappings, replies);
    } else {
      CountsMore(e, mappings, replies, n - 1, name, lost);
      CountStep(e, mappings, replies, n - 1, name);
      if Shown(mappings[n - 1]) == name {
        KeptName(mappings, name, mappings[n - 1]);
      }
    }
  }

  lemma {:induction false} NothingCounted(e: Executor, mappings: seq<KeyMapping>, replies: Replies)
    ensures Returned(e, mappings, replies, 0) == Expected(e, mappings[..0], replies) == multiset{}
  {
    assert mappings[..0] == [];
  }

  lemma KeptName(mappings: seq<KeyMapping>, name: string, m: KeyMapping)
    requires NameKept(mappings, name) && m in mappings && Shown(m) == name
    ensures ComesBack(mappings, m) == name
  {}

  lemma {:induction false} CountStep(e: Executor, mappings: seq<KeyMapping>, replies: Replies, n: nat, name: string)
    requires n < |mappings|
    ensures var m, succeeds := mappings[n], Succeeds(e, replies, mappings[n].backendID);
            && Returned(e, mappings, replies, n + 1)[name]
               == Returned(e, mappings, replies, n)[name]
                  + (if succeeds && ComesBack(mappings, m) == name then 1 else 0)
            && Expected(e, mappings[..n + 1], replies)[name]
               == Expected(e, mappings[..n], replies)[name] + (if succeeds && Shown(m) == name then 1 else 0)
  {
    hide ComesBack, Shown, Succeeds, Returned, Expected;
    ReturnedStep(e, mappings, replies, n);
    ExpectedStep(e, mappings, replies, n);
  }

  lemma {:induction false} ExpectedStep(e: Executor, mappings: seq<KeyMapping>, replies: Replies, n: nat)
    requires n < |mappings|
    ensures Expected(e, mappings[..n + 1], replies)
            == Expected(e, mappings[..n], replies)
               + if Succeeds(e, replies, mappings[n].backendID) then multiset{Shown(mappings[n])} else multiset{}
  {
    assert mappings[..n + 1][..n] == mappings[..n];
  }

  lemma SameClass(mappings: seq<KeyMapping>, m: KeyMapping, l: KeyMapping)
    requires m.backendID == l.backendID && m.physicalKey == l.physicalKey
    ensures ComesBack(mappings, m) == ComesBack(mappings, l)
  {}

  lemma MapKeyKeeps(e: Executor, key: string)
    ensures e.MapKey(key).virtualKey == key
  {}

  /** There is an order in which to visit the groups. */
  lemma {:induction false} SomeOrder(mappings: seq<KeyMapping>) returns (order: seq<string>)
    ensures Visits(order, mappings)
  {
    if mappings == [] {
      order := [];
    } else {
      var n := |mappings| - 1;
      order := SomeOrder(mappings[..n]);
      if mappings[n].backendID !in order {
        order := order + [mappings[n].backendID];
      }
    }
  }

  /** Every backend answers with the keys it was asked for. */
  function AllSucceed(mappings: seq<KeyMapping>): Replies { id => Some(PhysicalKeys(Group(mappings, id))) }

  lemma AllHonest(e: Executor, mappings: seq<KeyMapping>)
    ensures Honest(AllSucceed(mappings), mappings)
    ensures forall id :: id in e.prefixes ==> Succeeds(e, AllSucceed(mappings), id)
  {}

  /**
   The response conserves the requested keys, for all honest backends and all
   orders, exactly when no two names share a physical key in a backend that
   has a client.
   */
  lemma {:induction false} DeleteConservesIff(e: Executor, keys: seq<string>)
    ensures Determined(e, e.MapKeys(keys)) <==>
            forall replies: Replies, order ::
              Honest(replies, e.MapKeys(keys)) && Visits(order, e.MapKeys(keys)) ==>
              multiset(Deleted(e, e.MapKeys(keys), replies, order)) == Expected(e, e.MapKeys(keys), replies)
  {
    hide Deleted, Expected, Visits, Executor.MapKey, Honest, Shown, AllSucceed;
    var mappings := e.MapKeys(keys);
    if Determined(e, mappings) {
      forall replies: Replies, order | Honest(replies, mappings) && Visits(order, mappings)
        ensures multiset(Deleted(e, mappings, replies, order)) == Expected(e, mappings, replies)
      {
        DeleteConserves(e, keys, replies, order);
      }
    } else {
      var i, j :| 0 <= i < |mappings| && 0 <= j < |mappings|
                  && mappings[i].backendID in e.prefixes && mappings[i].backendID == mappings[j].backendID
                  && mappings[i].physicalKey == mappings[j].physicalKey
                  && Shown(mappings[i]) != Shown(mappings[j]);
      var order := SomeOrder(mappings);
      AllHonest(e, mappings);
      CollisionLoses(e, keys, AllSucceed(mappings), order, i, j);
    }
  }
}
