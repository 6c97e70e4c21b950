/**
 `struct headers`: a list of header entries and, beside it, a map from each name to the list of its
 entries.  When do the two agree?
 */
module HeaderList {
  import opened BitStrings
  import opened HpackTable
  import opened HpackCodec

  /** Both lists hold the same entries.  An entry is known by its place in `entries`, the entries ever
      made; its name never changes, its value can. */
  datatype Headers = Headers(entries: seq<Field>, list: seq<nat>, index: map<seq<Octet>, seq<nat>>)

  function EmptyHeaders(): Headers {
    Headers([], [], map[])
  }

  // The two views of a name

  /** What the map has under a name. */
  function Under(h: Headers, name: seq<Octet>): seq<nat> {
    if name in h.index then h.index[name] else []
  }

  predicate Named(entries: seq<Field>, k: nat, name: seq<Octet>) {
    k < |entries| && entries[k].name == name
  }

  /** The entries of a name in the order of the list. */
  function Matching(entries: seq<Field>, list: seq<nat>, name: seq<Octet>): seq<nat> {
    if list == [] then []
    else (if Named(entries, list[0], name) then [list[0]] else []) + Matching(entries, list[1..], name)
  }

  function At(entries: seq<Field>, k: nat): Field {
    if k < |entries| then entries[k] else Field([], [])
  }

  /** The header fields as `header_serialize` and `hpack_encode` go through them. */
  function FieldsOf(entries: seq<Field>, list: seq<nat>): (fields: seq<Field>)
    ensures |fields| == |list| && forall i :: 0 <= i < |list| ==> fields[i] == At(entries, list[i])
  {
    if list == [] then [] else [At(entries, list[0])] + FieldsOf(entries, list[1..])
  }

  function Contents(h: Headers): seq<Field> {
    FieldsOf(h.entries, h.list)
  }

  /** Index agreement: under each name, the map has exactly the entries of that name, in list order. */
  ghost predicate IndexAgrees(h: Headers) {
    forall name :: Right(h, name)
  }

  ghost predicate Right(h: Headers, name: seq<Octet>) {
    Under(h, name) == Matching(h.entries, h.list, name)
  }

  ghost predicate Distinct(list: seq<nat>) {
    forall i, j :: 0 <= i < j < |list| ==> list[i] != list[j]
  }

  ghost predicate InRange(entries: seq<Field>, list: seq<nat>) {
    forall i :: 0 <= i < |list| ==> list[i] < |entries|
  }

  ghost predicate Sound(h: Headers) {
    && Distinct(h.list)
    && InRange(h.entries, h.list)
    && (forall k :: 0 <= k < |h.entries| ==> Lower(h.entries[k].name) == h.entries[k].name)
    && (forall name :: name in h.index ==> h.index[name] != [] && Lower(name) == name)
    && (forall name, i :: name in h.index && 0 <= i < |h.index[name]| ==> Member(h, h.index[name][i], name))
  }

  predicate Member(h: Headers, k: nat, name: seq<Octet>) {
    k in h.list && Named(h.entries, k, name)
  }

  /** What holds in every reachable state: a name's entry in the map is right, or it has lost entries. */
  ghost predicate Reachable(h: Headers) {
    && Sound(h)
    && (forall name :: Tracked(h, name))
  }

  ghost predicate Tracked(h: Headers, name: seq<Octet>) {
    || Right(h, name)
    || |Under(h, name)| < |Matching(h.entries, h.list, name)|
  }

  // The operations

  /** `header_get`, which looks up the lower-cased name */
  function Get(h: Headers, name: seq<Octet>): Option<seq<Octet>>
    requires Sound(h)
  {
    if Lower(name) in h.index then
      Some(h.entries[h.index[Lower(name)][0]].value)
    else None
  }

  /** `header_set`, which looks up the name as it is */
  function Set(h: Headers, name: seq<Octet>, value: seq<Octet>): (Headers, bool)
    requires Sound(h)
  {
    if name in h.index then
      var k := h.index[name][0];
      (h.(entries := h.entries[k := Field(h.entries[k].name, value)]), true)
    else (h, false)
  }

  /** `header_add` and, in front, `header_prepend`: the name as it is decides whether there is a list to
      join; a new list goes under the lower-cased name. */
  function Add(h: Headers, name: seq<Octet>, value: seq<Octet>, front: bool): Headers {
    var node := |h.entries|;
    var joined := Under(h, name);
    var key := if name in h.index then name else Lower(name);
    Headers(h.entries + [Field(Lower(name), value)],
            if front then [node] + h.list else h.list + [node],
            h.index[key := if front then [node] + joined else joined + [node]])
  }

  /** `llist_del` */
  function RemoveNode(list: seq<nat>, k: nat): seq<nat> {
    if list == [] then [] else if list[0] == k then list[1..] else [list[0]] + RemoveNode(list[1..], k)
  }

  function RemoveAll(list: seq<nat>, nodes: seq<nat>): seq<nat>
    decreases |nodes|
  {
    if nodes == [] then list else RemoveAll(RemoveNode(list, nodes[0]), nodes[1..])
  }

  /** `header_del` */
  function Del(h: Headers, name: seq<Octet>): Headers {
    if Lower(name) !in h.index then h
    else h.(list := RemoveAll(h.list, h.index[Lower(name)]), index := h.index - {Lower(name)})
  }

  /** `header_tryadd` */
  function TryAdd(h: Headers, name: seq<Octet>, value: seq<Octet>): Headers
    requires Sound(h)
  {
    if Get(h, name).Some? then h else Add(h, name, value, false)
  }

  /** `header_setoradd` */
  function SetOrAdd(h: Headers, name: seq<Octet>, value: seq<Octet>): Headers
    requires Sound(h)
  {
    var (set', done) := Set(h, name, value);
    if done then set' else Add(h, name, value, false)
  }

  // How the matching entries change

  lemma {:induction false} MatchingConcat(entries: seq<Field>, a: seq<nat>, b: seq<nat>, name: seq<Octet>)
    ensures Matching(entries, a + b, name) == Matching(entries, a, name) + Matching(entries, b, name)
  {
    hide Matching, Named;
    if a == [] {
      assert a + b == b;
      NothingMatches(entries, 0, name);
    } else {
      var first, rest := a[0], a[1..];
      assert a == [first] + rest && a + b == [first] + (rest + b);
      MatchingConcat(entries, rest, b, name);
      MatchingCons(entries, first, rest, name);
      MatchingCons(entries, first, rest + b, name);
    }
  }

  /** Only the names of the listed entries matter. */
  lemma {:induction false} MatchingSameNames(entries: seq<Field>, entries': seq<Field>, list: seq<nat>,
                                             name: seq<Octet>)
    requires forall i :: 0 <= i < |list| ==> (Named(entries, list[i], name) <==> Named(entries', list[i], name))
    ensures Matching(entries, list, name) == Matching(entries', list, name)
  {
    if list != [] {
      MatchingSameNames(entries, entries', list[1..], name);
    }
  }

  lemma {:induction false} MatchingOne(entries: seq<Field>, k: nat, name: seq<Octet>)
    ensures Matching(entries, [k], name) == if Named(entries, k, name) then [k] else []
  {
    assert [k][1..] == [];
  }

  lemma {:induction false} MatchingAfterAdd(h: Headers, name: seq<Octet>, value: seq<Octet>, front: bool, n: seq<Octet>)
    requires InRange(h.entries, h.list)
    ensures var r, m := Add(h, name, value, front), Matching(h.entries, h.list, n);
            Matching(r.entries, r.list, n)
            == if n != Lower(name) then m else if front then [|h.entries|] + m else m + [|h.entries|]
  {
    var r := Add(h, name, value, front);
    var node := |h.entries|;
    MatchingSameNames(h.entries, r.entries, h.list, n);
    MatchingOne(r.entries, node, n);
    if front {
      MatchingConcat(r.entries, [node], h.list, n);
    } else {
      MatchingConcat(r.entries, h.list, [node], n);
    }
  }

  lemma {:induction false} MatchingAfterRemove(entries: seq<Field>, list: seq<nat>, k: nat, name: seq<Octet>,
                                               n: seq<Octet>)
    requires Named(entries, k, name)
    ensures Matching(entries, RemoveNode(list, k), n)
         == if n == name then RemoveNode(Matching(entries, list, n), k) else Matching(entries, list, n)
  {
    hide Matching, RemoveNode;
    if list == [] {
      NothingMatches(entries, k, n);
    } else {
      var first, rest := list[0], list[1..];
      assert list == [first] + rest;
      MatchingAfterRemove(entries, rest, k, name, n);
      RemoveNodeCons(first, rest, k);
      RemoveNodeCons(first, Matching(entries, rest, n), k);
      MatchingCons(entries, first, rest, n);
      MatchingCons(entries, first, RemoveNode(rest, k), n);
    }
  }

  lemma NothingMatches(entries: seq<Field>, k: nat, n: seq<Octet>)
    ensures Matching(entries, RemoveNode([], k), n) == [] == RemoveNode(Matching(entries, [], n), k)
    ensures Matching(entries, [], n) == []
  {
  }

  lemma MatchingCons(entries: seq<Field>, first: nat, rest: seq<nat>, n: seq<Octet>)
    ensures Matching(entries, [first] + rest, n)
         == if Named(entries, first, n) then [first] + Matching(entries, rest, n) else Matching(entries, rest, n)
  {
    assert ([first] + rest)[1..] == rest;
    assert [] + Matching(entries, rest, n) == Matching(entries, rest, n);
  }

  lemma RemoveNodeCons(first: nat, rest: seq<nat>, k: nat)
    ensures RemoveNode([first] + rest, k) == if first == k then rest else [first] + RemoveNode(rest, k)
  {
    assert ([first] + rest)[1..] == rest;
  }

  lemma {:induction false} MatchingAfterRemoveAll(entries: seq<Field>, list: seq<nat>, nodes: seq<nat>,
                                                  name: seq<Octet>, n: seq<Octet>)
    requires forall i :: 0 <= i < |nodes| ==> Named(entries, nodes[i], name)
    ensures Matching(entries, RemoveAll(list, nodes), n)
         == if n == name then RemoveAll(Matching(entries, list, n), nodes) else Matching(entries, list, n)
    decreases |nodes|
  {
    if nodes != [] {
      assert nodes[0] in nodes;
      MatchingAfterRemove(entries, list, nodes[0], name, n);
      MatchingAfterRemoveAll(entries, RemoveNode(list, nodes[0]), nodes[1..], name, n);
    }
  }

  /** Removing k nodes takes away at most k. */
  lemma {:induction false} RemoveAllSize(list: seq<nat>, nodes: seq<nat>)
    ensures |RemoveAll(list, nodes)| + |nodes| >= |list|
    ensures nodes == list ==> RemoveAll(list, nodes) == []
    decreases |nodes|
  {
    if nodes != [] {
      RemoveNodeSize(list, nodes[0]);
      RemoveAllSize(RemoveNode(list, nodes[0]), nodes[1..]);
    }
  }

  lemma {:induction false} RemoveNodeSize(list: seq<nat>, k: nat)
    ensures |RemoveNode(list, k)| + 1 >= |list|
  {
    if list != [] && list[0] != k {
      RemoveNodeSize(list[1..], k);
    }
  }

  lemma {:induction false} RemoveNodeMembers(list: seq<nat>, k: nat)
    requires Distinct(list)
    ensures Distinct(RemoveNode(list, k))
    ensures forall j: nat :: j in RemoveNode(list, k) <==> j in list && j != k
  {
    if list != [] {
      var first, rest := list[0], list[1..];
      forall i, j | 0 <= i < j < |rest| ensures rest[i] != rest[j] {
        assert list[i + 1] != list[j + 1];
      }
      assert forall j :: 0 <= j < |rest| ==> rest[j] == list[j + 1];
      assert first !in rest;
      assert list == [first] + rest;
      RemoveNodeMembers(rest, k);
      assert RemoveNode(list, k) == if first == k then rest else [first] + RemoveNode(rest, k);
    }
  }

  lemma {:induction false} RemoveAllMembers(list: seq<nat>, nodes: seq<nat>)
    requires Distinct(list)
    ensures Distinct(RemoveAll(list, nodes))
    ensures forall j: nat :: j in RemoveAll(list, nodes) <==> j in list && j !in nodes
    decreases |nodes|
  {
    if nodes != [] {
      RemoveNodeMembers(list, nodes[0]);
      RemoveAllMembers(RemoveNode(list, nodes[0]), nodes[1..]);
      assert nodes == [nodes[0]] + nodes[1..];
    }
  }

  // Each operation

  /** The condition under which adding keeps the index in agreement: the name is in lower case, or the list
      has no field of that name yet. */
  predicate AddOk(h: Headers, name: seq<Octet>) {
    Lower(name) == name || Matching(h.entries, h.list, Lower(name)) == []
  }

  lemma {:induction false} LowerIsLower(name: seq<Octet>)
    ensures Lower(Lower(name)) == Lower(name)
  {
    var l := Lower(name);
    assert forall i :: 0 <= i < |name| ==> Lower(l)[i] == LowerOctet(l[i]) == l[i];
  }

  lemma AddDistinct(list: seq<nat>, node: nat, front: bool)
    requires Distinct(list) && forall i :: 0 <= i < |list| ==> list[i] < node
    ensures Distinct(if front then [node] + list else list + [node])
  {
  }

  lemma {:induction false} AddSound(h: Headers, name: seq<Octet>, value: seq<Octet>, front: bool)
    requires Sound(h)
    ensures Sound(Add(h, name, value, front))
  {
    hide Lower, Distinct, Member;
    LowerIsLower(name);
    AddDistinct(h.list, |h.entries|, front);
    var r := Add(h, name, value, front);
    forall n, i | n in r.index && 0 <= i < |r.index[n]| ensures Member(r, r.index[n][i], n) {
      AddMember(h, name, value, front, n, i);
    }
  }

  lemma {:induction false} AddMember(h: Headers, name: seq<Octet>, value: seq<Octet>, front: bool, n: seq<Octet>,
                                     i: nat)
    requires Sound(h) && n in Add(h, name, value, front).index && i < |Add(h, name, value, front).index[n]|
    ensures var r := Add(h, name, value, front); Member(r, r.index[n][i], n)
  {
    hide Lower, Distinct;
    var r, node := Add(h, name, value, front), |h.entries|;
    var k := r.index[n][i];
    if k != node {
      assert k in Under(h, n);
      var j :| 0 <= j < |h.index[n]| && h.index[n][j] == k;
      assert Member(h, h.index[n][j], n);
    }
  }

  lemma {:induction false} AddAgrees(h: Headers, name: seq<Octet>, value: seq<Octet>, front: bool)
    requires Reachable(h)
    ensures var r := Add(h, name, value, front);
            Reachable(r) && (IndexAgrees(r) <==> IndexAgrees(h) && AddOk(h, name))
  {
    hide Lower, Right, Tracked, Sound, AddOk, Add;
    AddSound(h, name, value, front);
    var r, low := Add(h, name, value, front), Lower(name);
    forall n ensures Tracked(r, n) && (Right(r, n) <==> Right(h, n) && (n == low ==> AddOk(h, name))) {
      AddAgreesAt(h, name, value, front, n);
    }
    assert Right(r, low) <==> Right(h, low) && AddOk(h, name);
  }

  /** Under each name. */
  lemma {:induction false} AddAgreesAt(h: Headers, name: seq<Octet>, value: seq<Octet>, front: bool, n: seq<Octet>)
    requires Sound(h) && Tracked(h, n)
    ensures var r := Add(h, name, value, front);
            Tracked(r, n) && (Right(r, n) <==> Right(h, n) && (n == Lower(name) ==> AddOk(h, name)))
  {
    hide Lower, Distinct, InRange, Member;
    var r, node, low := Add(h, name, value, front), |h.entries|, Lower(name);
    MatchingAfterAdd(h, name, value, front, n);
    if n == low {
      var m := Matching(h.entries, h.list, low);
      assert name in h.index ==> low == name;
      if front {
        assert ([node] + m)[1..] == m && ([node] + Under(h, name))[1..] == Under(h, name);
      } else {
        assert (m + [node])[..|m|] == m && (Under(h, name) + [node])[..|Under(h, name)|] == Under(h, name);
      }
    }
  }

  lemma {:induction false} SetAgrees(h: Headers, name: seq<Octet>, value: seq<Octet>)
    requires Reachable(h)
    ensures var r := Set(h, name, value).0; Reachable(r) && (IndexAgrees(r) <==> IndexAgrees(h))
  {
    hide Lower, Right, Tracked, Sound;
    ReachableIsSound(h);
    var r := Set(h, name, value).0;
    SetSound(h, name, value);
    forall n ensures Tracked(r, n) && (Right(r, n) <==> Right(h, n)) {
      SetAgreesAt(h, name, value, n);
    }
  }

  lemma {:induction false} SetSound(h: Headers, name: seq<Octet>, value: seq<Octet>)
    requires Sound(h)
    ensures Sound(Set(h, name, value).0)
  {
    hide Lower, Distinct;
    var r := Set(h, name, value).0;
    if name in h.index {
      assert |r.entries| == |h.entries| && forall k :: 0 <= k < |h.entries| ==> r.entries[k].name == h.entries[k].name;
      forall n, i | n in r.index && 0 <= i < |r.index[n]| ensures Member(r, r.index[n][i], n) {
        assert Member(h, h.index[n][i], n);
      }
    }
  }

  lemma {:induction false} SetAgreesAt(h: Headers, name: seq<Octet>, value: seq<Octet>, n: seq<Octet>)
    requires Sound(h) && Tracked(h, n)
    ensures var r := Set(h, name, value).0; Tracked(r, n) && (Right(r, n) <==> Right(h, n))
  {
    hide Lower, Distinct, Matching;
    var r := Set(h, name, value).0;
    if name in h.index {
      assert |r.entries| == |h.entries| && forall k :: 0 <= k < |h.entries| ==> r.entries[k].name == h.entries[k].name;
    }
    MatchingSameNames(h.entries, r.entries, h.list, n);
  }

  lemma {:induction false} DelSound(h: Headers, name: seq<Octet>)
    requires Sound(h)
    ensures Sound(Del(h, name))
  {
    hide Lower, RemoveAll, Matching;
    if Lower(name) in h.index {
      var nodes, r := h.index[Lower(name)], Del(h, name);
      RemoveAllMembers(h.list, nodes);
      assert forall i :: 0 <= i < |nodes| ==> Member(h, nodes[i], Lower(name));
      forall i | 0 <= i < |r.list| ensures r.list[i] < |r.entries| {
        assert r.list[i] in r.list;
      }
      forall n, i | n in r.index && 0 <= i < |r.index[n]| ensures Member(r, r.index[n][i], n) {
        assert Member(h, h.index[n][i], n);
      }
    }
  }

  lemma {:induction false} DelAgrees(h: Headers, name: seq<Octet>)
    requires Reachable(h)
    ensures var r := Del(h, name); Reachable(r) && (IndexAgrees(r) <==> IndexAgrees(h))
  {
    hide Lower, Right, Tracked, Sound, Del;
    DelSound(h, name);
    var r := Del(h, name);
    forall n ensures Tracked(r, n) && (Right(r, n) <==> Right(h, n)) {
      DelAgreesAt(h, name, n);
    }
  }

  lemma {:induction false} DelAgreesAt(h: Headers, name: seq<Octet>, n: seq<Octet>)
    requires Sound(h) && Tracked(h, n)
    ensures var r := Del(h, name); Tracked(r, n) && (Right(r, n) <==> Right(h, n))
  {
    hide Lower, RemoveAll, Matching, Distinct, InRange;
    var low := Lower(name);
    if low in h.index {
      assert forall i :: 0 <= i < |h.index[low]| ==> Member(h, h.index[low][i], low);
      MatchingAfterRemoveAll(h.entries, h.list, h.index[low], low, n);
      RemoveAllSize(Matching(h.entries, h.list, low), Under(h, low));
    }
  }

  // Runs of operations

  datatype Operation =
    | SetOp(name: seq<Octet>, value: seq<Octet>)
    | AddOp(name: seq<Octet>, value: seq<Octet>)
    | PrependOp(name: seq<Octet>, value: seq<Octet>)
    | DelOp(name: seq<Octet>)
    | TryAddOp(name: seq<Octet>, value: seq<Octet>)
    | SetOrAddOp(name: seq<Octet>, value: seq<Octet>)

  function Apply(h: Headers, op: Operation): Headers
    requires Sound(h)
  {
    match op
    case SetOp(name, value) => Set(h, name, value).0
    case AddOp(name, value) => Add(h, name, value, false)
    case PrependOp(name, value) => Add(h, name, value, true)
    case DelOp(name) => Del(h, name)
    case TryAddOp(name, value) => TryAdd(h, name, value)
    case SetOrAddOp(name, value) => SetOrAdd(h, name, value)
  }

  /** Whether the operation, if it comes to adding an entry, may. */
  predicate Harmless(h: Headers, op: Operation)
    requires Sound(h)
  {
    match op
    case AddOp(name, _) => AddOk(h, name)
    case PrependOp(name, _) => AddOk(h, name)
    case TryAddOp(name, _) => Get(h, name).Some? || AddOk(h, name)
    case SetOrAddOp(name, _) => name in h.index || AddOk(h, name)
    case _ => true
  }

  lemma {:induction false} ApplyAgrees(h: Headers, op: Operation)
    requires Reachable(h)
    ensures Reachable(Apply(h, op)) && (IndexAgrees(Apply(h, op)) <==> IndexAgrees(h) && Harmless(h, op))
  {
    hide Reachable, IndexAgrees, Add, Set, Del, AddOk, Get;
    ReachableIsSound(h);
    match op
    case SetOp(name, value) => SetAgrees(h, name, value);
    case AddOp(name, value) => AddAgrees(h, name, value, false);
    case PrependOp(name, value) => AddAgrees(h, name, value, true);
    case DelOp(name) => DelAgrees(h, name);
    case TryAddOp(name, value) => AddAgrees(h, name, value, false);
    case SetOrAddOp(name, value) =>
      SetAgrees(h, name, value);
      AddAgrees(h, name, value, false);
      SetWhen(h, name, value);
  }

  lemma ReachableIsSound(h: Headers)
    requires Reachable(h)
    ensures Sound(h)
  {
  }

  lemma SetWhen(h: Headers, name: seq<Octet>, value: seq<Octet>)
    requires Sound(h)
    ensures Set(h, name, value).1 <==> name in h.index
  {
  }

  ghost function AfterAll(h: Headers, ops: seq<Operation>): Headers
    requires Reachable(h)
    decreases |ops|
  {
    if ops == [] then h
    else
      ApplyAgrees(h, ops[0]);
      AfterAll(Apply(h, ops[0]), ops[1..])
  }

  ghost predicate AllHarmless(h: Headers, ops: seq<Operation>)
    requires Reachable(h)
    decreases |ops|
  {
    ops == [] ||
    (ApplyAgrees(h, ops[0]);
     Harmless(h, ops[0]) && AllHarmless(Apply(h, ops[0]), ops[1..]))
  }

  /** After any sequence of operations on an agreeing list, list and map agree exactly when every addition
      was of a name in lower case or of a name without a field; and no operation repairs them. */
  lemma {:induction false} RunAgrees(h: Headers, ops: seq<Operation>)
    requires Reachable(h)
    ensures Reachable(AfterAll(h, ops)) && (IndexAgrees(AfterAll(h, ops)) <==> IndexAgrees(h) && AllHarmless(h, ops))
    decreases |ops|
  {
    hide Reachable, IndexAgrees, Apply, Harmless;
    if ops != [] {
      ReachableIsSound(h);
      ApplyAgrees(h, ops[0]);
      RunAgrees(Apply(h, ops[0]), ops[1..]);
    }
  }

  lemma EmptyAgrees()
    ensures Reachable(EmptyHeaders()) && IndexAgrees(EmptyHeaders())
  {
  }

  // What the operations mean on the list of fields

  /** A linear scan for the first field of a name. */
  function FirstValue(fields: seq<Field>, name: seq<Octet>): Option<seq<Octet>> {
    if fields == [] then None
    else if fields[0].name == name then Some(fields[0].value)
    else FirstValue(fields[1..], name)
  }

  lemma {:induction false} FirstIsFirstMatch(entries: seq<Field>, list: seq<nat>, name: seq<Octet>)
    requires InRange(entries, list)
    ensures var m := Matching(entries, list, name);
            FirstValue(FieldsOf(entries, list), name)
            == if m == [] then None else Some(At(entries, m[0]).value)
  {
    if list != [] {
      FirstIsFirstMatch(entries, list[1..], name);
      assert FieldsOf(entries, list)[1..] == FieldsOf(entries, list[1..]);
    }
  }

  /** `header_get` through the map is a first-match scan of the list, in any case of the name. */
  lemma {:induction false} GetIsFirstMatch(h: Headers, name: seq<Octet>)
    requires Sound(h) && IndexAgrees(h)
    ensures Get(h, name) == FirstValue(Contents(h), Lower(name))
  {
    hide Lower;
    var low := Lower(name);
    assert Right(h, low);
    FirstIsFirstMatch(h.entries, h.list, low);
  }

  function SetFirst(fields: seq<Field>, name: seq<Octet>, value: seq<Octet>): seq<Field> {
    if fields == [] then []
    else if fields[0].name == name then [Field(name, value)] + fields[1..]
    else [fields[0]] + SetFirst(fields[1..], name, value)
  }

  function Others(fields: seq<Field>, name: seq<Octet>): seq<Field> {
    if fields == [] then [] else (if fields[0].name == name then [] else [fields[0]]) + Others(fields[1..], name)
  }

  lemma {:induction false} AddMeans(h: Headers, name: seq<Octet>, value: seq<Octet>, front: bool)
    requires Sound(h)
    ensures Sound(Add(h, name, value, front))
    ensures var f := Field(Lower(name), value);
            Contents(Add(h, name, value, front)) == if front then [f] + Contents(h) else Contents(h) + [f]
  {
    hide Lower, Matching;
    AddSound(h, name, value, front);
  }

  lemma {:induction false} SetFirstAt(entries: seq<Field>, list: seq<nat>, name: seq<Octet>, value: seq<Octet>)
    requires InRange(entries, list) && Distinct(list) && Matching(entries, list, name) != []
    ensures var k := Matching(entries, list, name)[0];
            && k < |entries| && k in list && entries[k].name == name
            && FieldsOf(entries[k := Field(name, value)], list) == SetFirst(FieldsOf(entries, list), name, value)
  {
    var fields, rest := FieldsOf(entries, list), list[1..];
    assert fields[1..] == FieldsOf(entries, rest);
    if Named(entries, list[0], name) {
      var k := list[0];
      var changed := FieldsOf(entries[k := Field(name, value)], list);
      assert forall j :: 1 <= j < |list| ==> list[j] != list[0];
      assert changed == [Field(name, value)] + fields[1..];
    } else {
      forall i, j | 0 <= i < j < |rest| ensures rest[i] != rest[j] {
        assert list[i + 1] != list[j + 1];
      }
      SetFirstAt(entries, rest, name, value);
      var k := Matching(entries, rest, name)[0];
      assert k != list[0];
      assert FieldsOf(entries[k := Field(name, value)], list)
          == [entries[list[0]]] + FieldsOf(entries[k := Field(name, value)], rest);
    }
  }

  /** `header_set` replaces the value of the first field of a name in lower case, and never finds a name
      that is not. */
  lemma {:induction false} SetMeans(h: Headers, name: seq<Octet>, value: seq<Octet>)
    requires Reachable(h) && IndexAgrees(h)
    ensures var (r, done) := Set(h, name, value);
            && Sound(r) && (done <==> Lower(name) == name && FirstValue(Contents(h), name).Some?)
            && Contents(r) == if done then SetFirst(Contents(h), name, value) else Contents(h)
  {
    hide Lower;
    SetAgrees(h, name, value);
    assert Right(h, name);
    FirstIsFirstMatch(h.entries, h.list, name);
    if name in h.index {
      SetFirstAt(h.entries, h.list, name, value);
    } else if Matching(h.entries, h.list, name) != [] {
      SetFirstAt(h.entries, h.list, name, value);
    }
  }

  /** `header_tryadd` adds a field exactly when its name, in any case, has none. */
  lemma {:induction false} TryAddMeans(h: Headers, name: seq<Octet>, value: seq<Octet>)
    requires Sound(h) && IndexAgrees(h)
    ensures var r := TryAdd(h, name, value);
            Contents(r) == if FirstValue(Contents(h), Lower(name)).Some? then Contents(h)
                           else Contents(h) + [Field(Lower(name), value)]
  {
    hide Lower, IndexAgrees, Sound, Contents, Get, Add;
    GetIsFirstMatch(h, name);
    AddMeans(h, name, value, false);
  }

  /** `header_setoradd` changes the first field of a name in lower case, and otherwise adds a field. */
  lemma {:induction false} SetOrAddMeans(h: Headers, name: seq<Octet>, value: seq<Octet>)
    requires Reachable(h) && IndexAgrees(h)
    ensures Sound(h)
    ensures Contents(SetOrAdd(h, name, value))
         == if Lower(name) == name && FirstValue(Contents(h), name).Some? then SetFirst(Contents(h), name, value)
            else Contents(h) + [Field(Lower(name), value)]
  {
    hide Lower, IndexAgrees, Sound, Contents, Set, Add, Reachable;
    ReachableIsSound(h);
    SetMeans(h, name, value);
    AddMeans(h, name, value, false);
  }

  lemma {:induction false} OthersAfterRemove(entries: seq<Field>, list: seq<nat>, k: nat, name: seq<Octet>)
    requires InRange(entries, list) && Named(entries, k, name)
    ensures InRange(entries, RemoveNode(list, k))
    ensures Others(FieldsOf(entries, RemoveNode(list, k)), name) == Others(FieldsOf(entries, list), name)
  {
    if list != [] {
      assert list == [list[0]] + list[1..];
      assert FieldsOf(entries, list)[1..] == FieldsOf(entries, list[1..]);
      if list[0] != k {
        OthersAfterRemove(entries, list[1..], k, name);
        assert RemoveNode(list, k)[1..] == RemoveNode(list[1..], k);
        assert FieldsOf(entries, RemoveNode(list, k))[1..] == FieldsOf(entries, RemoveNode(list[1..], k));
      }
    }
  }

  lemma {:induction false} OthersAfterRemoveAll(entries: seq<Field>, list: seq<nat>, nodes: seq<nat>, name: seq<Octet>)
    requires InRange(entries, list) && (forall i :: 0 <= i < |nodes| ==> Named(entries, nodes[i], name))
    ensures InRange(entries, RemoveAll(list, nodes))
    ensures Others(FieldsOf(entries, RemoveAll(list, nodes)), name) == Others(FieldsOf(entries, list), name)
    decreases |nodes|
  {
    if nodes != [] {
      OthersAfterRemove(entries, list, nodes[0], name);
      OthersAfterRemoveAll(entries, RemoveNode(list, nodes[0]), nodes[1..], name);
    }
  }

  lemma {:induction false} NoneMatchingIsOthers(entries: seq<Field>, list: seq<nat>, name: seq<Octet>)
    requires InRange(entries, list) && Matching(entries, list, name) == []
    ensures Others(FieldsOf(entries, list), name) == FieldsOf(entries, list)
  {
    if list != [] {
      NoneMatchingIsOthers(entries, list[1..], name);
      assert FieldsOf(entries, list)[1..] == FieldsOf(entries, list[1..]);
    }
  }

  /** `header_del` removes exactly the fields of the name, in any case of the name. */
  lemma {:induction false} DelMeans(h: Headers, name: seq<Octet>)
    requires Reachable(h) && IndexAgrees(h)
    ensures Sound(Del(h, name)) && Contents(Del(h, name)) == Others(Contents(h), Lower(name))
  {
    hide Lower, RemoveAll, Matching, Others;
    DelAgrees(h, name);
    var low, r := Lower(name), Del(h, name);
    assert IndexAgrees(r);
    assert Right(r, low);
    NoneMatchingIsOthers(r.entries, r.list, low);
    if low in h.index {
      OthersAfterRemoveAll(h.entries, h.list, h.index[low], low);
    }
  }

  /** `header_setoradd` under a name that is not in lower case never sets: a list that has a field of that
      name gets a second one, which from then on hides the first from `header_get`. */
  lemma {:induction false} SetOrAddDuplicates(h: Headers, name: seq<Octet>, value: seq<Octet>)
    requires Reachable(h) && IndexAgrees(h) && Lower(name) != name && FirstValue(Contents(h), Lower(name)).Some?
    ensures var r := SetOrAdd(h, name, value);
            && Sound(r) && !IndexAgrees(r)
            && Contents(r) == Contents(h) + [Field(Lower(name), value)]
            && Get(r, name) == Some(value)
            && FirstValue(Contents(r), Lower(name)) == FirstValue(Contents(h), Lower(name))
  {
    hide Lower;
    AddAgrees(h, name, value, false);
    AddMeans(h, name, value, false);
    GetIsFirstMatch(h, name);
    FirstIsFirstMatch(h.entries, h.list, Lower(name));
    FirstValueAppends(Contents(h), Field(Lower(name), value), Lower(name));
  }

  /** "a" and then "A": the list has both fields, the map only the second. */
  lemma CapitalRepeats()
    ensures var h := Add(Add(EmptyHeaders(), [97], [49], false), [65], [50], false);
            && h.list == [0, 1] && h.index == map[[97] := [1]] && Matching(h.entries, h.list, [97]) == [0, 1]
  {
    hide Matching;
    assert Lower([97]) == [97] && Lower([65]) == [97];
    var one := Add(EmptyHeaders(), [97], [49], false);
    assert one.list == [0] && one.index == map[[97] := [0]] && one.entries == [Field([97], [49])];
    var h := Add(one, [65], [50], false);
    assert h.entries == [Field([97], [49]), Field([97], [50])];
    assert Under(one, [65]) == [] && [] + [1] == [1];
    assert h.index == map[[97] := [0]][[97] := [1]] == map[[97] := [1]];
    MatchingOne(h.entries, 0, [97]);
    MatchingOne(h.entries, 1, [97]);
    MatchingConcat(h.entries, [0], [1], [97]);
    assert [0] + [1] == [0, 1];
  }

  lemma {:induction false} FirstValueAppends(fields: seq<Field>, f: Field, name: seq<Octet>)
    requires FirstValue(fields, name).Some?
    ensures FirstValue(fields + [f], name) == FirstValue(fields, name)
  {
    if fields[0].name != name {
      FirstValueAppends(fields[1..], f, name);
      assert (fields + [f])[1..] == fields[1..] + [f];
    }
  }

  // In place

  class HeaderTable {
    var entries: seq<Field>
    var headerList: seq<nat>
    var headerMap: map<seq<Octet>, seq<nat>>

    ghost function Model(): Headers
      reads this
    {
      Headers(entries, headerList, headerMap)
    }

    /** `header_new` */
    constructor ()
      ensures Model() == EmptyHeaders()
    {
      entries, headerList, headerMap := [], [], map[];
    }

    method Lookup(name: seq<Octet>) returns (value: Option<seq<Octet>>)
      requires Sound(Model())
      ensures value == Get(Model(), name)
    {
      var lower := Lower(name);
      if lower !in headerMap {
        return None;
      }
      return Some(entries[headerMap[lower][0]].value);
    }

    method SetValue(name: seq<Octet>, value: seq<Octet>) returns (done: bool)
      requires Sound(Model())
      modifies this`entries
      ensures (Model(), done) == Set(old(Model()), name, value)
    {
      if name !in headerMap {
        return false;
      }
      var k := headerMap[name][0];
      entries := entries[k := Field(entries[k].name, value)];
      return true;
    }

    /** `header_add` and `header_prepend` */
    method Insert(name: seq<Octet>, value: seq<Octet>, front: bool)
      modifies this
      ensures Model() == Add(old(Model()), name, value, front)
    {
      var key, list := name, [];
      if name in headerMap {
        list := headerMap[name];
      } else {
        key := Lower(name);
      }
      var node := |entries|;
      entries := entries + [Field(Lower(name), value)];
      headerMap := headerMap[key := if front then [node] + list else list + [node]];
      headerList := if front then [node] + headerList else headerList + [node];
    }

    method Delete(name: seq<Octet>)
      modifies this
      ensures Model() == Del(old(Model()), name)
    {
      var lower := Lower(name);
      if lower !in headerMap {
        return;
      }
      var nodes := headerMap[lower];
      for i := 0 to |nodes|
        invariant entries == old(entries) && headerMap == old(headerMap)
        invariant RemoveAll(headerList, nodes[i..]) == RemoveAll(old(headerList), nodes)
      {
        assert nodes[i..][1..] == nodes[i + 1..];
        headerList := RemoveNode(headerList, nodes[i]);
      }
      headerMap := headerMap - {lower};
    }

    method TryInsert(name: seq<Octet>, value: seq<Octet>)
      requires Sound(Model())
      modifies this
      ensures Model() == TryAdd(old(Model()), name, value)
    {
      var found := Lookup(name);
      if found.None? {
        Insert(name, value, false);
      }
    }

    method SetOrInsert(name: seq<Octet>, value: seq<Octet>)
      requires Sound(Model())
      modifies this
      ensures Model() == SetOrAdd(old(Model()), name, value)
    {
      var done := SetValue(name, value);
      if !done {
        Insert(name, value, false);
      }
    }
  }
}
