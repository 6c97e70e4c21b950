/** The dynamic table of HPACK with its by-name lookup lists: `hpack_fix`, `hpack_lookup`, `hpack_add_entry`. */
module HpackTable {
  import opened BitStrings

  datatype Option<T> = None | Some(value: T)

  /** A header field: a name and a value. */
  datatype Field = Field(name: seq<Octet>, value: seq<Octet>)

  function FieldSize(f: Field): nat {
    |f.value| + |f.name| + 32
  }

  /** A dynamic table entry.  `list` is the lookup list it was appended to. */
  datatype Entry = Entry(field: Field, size: nat, pushIndex: nat, list: nat)

  /** A compression context.  `table` is the queue, oldest entry first.  Lookup lists live in `lists` and
      are named by their index there; `lookup` maps a header name to its current list. */
  datatype Context = Context(
    table: seq<Entry>, lists: seq<seq<Entry>>, lookup: map<seq<Octet>, nat>,
    dynamicSize: nat, maxSize: nat, currentMax: nat, pushIndex: nat)

  /** `hpack_init` */
  function EmptyContext(max: nat): (c: Context)
    ensures Consistent(c) && Named(c) && IndexSound(c) && IndexExact(c) && Settled(c)
  {
    Context([], [], map[], 0, max, max, 0)
  }

  // Invariants

  function TotalSize(t: seq<Entry>): nat {
    if t == [] then 0 else t[0].size + TotalSize(t[1..])
  }

  /** The bookkeeping of section 4.1 of RFC 7541, and push indices that count up to the latest entry. */
  ghost predicate Consistent(c: Context) {
    && c.dynamicSize == TotalSize(c.table)
    && |c.table| <= c.pushIndex
    && (forall k :: 0 <= k < |c.table| ==> c.table[k].pushIndex == c.pushIndex - |c.table| + k)
    && (forall e :: e in c.table ==> e.size == FieldSize(e.field) && e.list < |c.lists|)
  }

  /** At a fixed maximum, only a lone entry can exceed it. */
  ghost predicate Settled(c: Context) {
    c.dynamicSize <= c.maxSize || |c.table| == 1
  }

  /** What holds of the lookup lists however many times an entry is appended: a mapped list is non-empty
      and of one name, and a listed entry that is recent enough to be in the table is the one there. */
  ghost predicate Named(c: Context) {
    && (forall n :: n in c.lookup ==>
          && c.lookup[n] < |c.lists| && c.lists[c.lookup[n]] != []
          && forall e :: e in c.lists[c.lookup[n]] ==> e.field.name == n)
    && (forall l, e :: 0 <= l < |c.lists| && e in c.lists[l] ==> Dated(c, e))
  }

  ghost predicate Dated(c: Context, e: Entry) {
    && e.pushIndex < c.pushIndex
    && (c.pushIndex - |c.table| <= e.pushIndex ==>
          e.pushIndex - (c.pushIndex - |c.table|) < |c.table| && c.table[e.pushIndex - (c.pushIndex - |c.table|)] == e)
  }

  /** The lookup lists hold only entries that are in the table, each under its own list and once. */
  ghost predicate IndexSound(c: Context) {
    forall l :: 0 <= l < |c.lists| ==> ListSound(c, l)
  }

  ghost predicate ListSound(c: Context, l: nat)
    requires l < |c.lists|
  {
    && Distinct(c.lists[l])
    && forall e :: e in c.lists[l] ==> e in c.table && e.list == l
  }

  ghost predicate Distinct(s: seq<Entry>) {
    forall i, j :: 0 <= i < j < |s| ==> s[i] != s[j]
  }

  /** The lookup map is exactly the table sorted by name: every name in the table, and no other, is mapped
      to the list of all its entries from the oldest to the newest. */
  ghost predicate IndexExact(c: Context) {
    && (forall e :: e in c.table ==> e.field.name in c.lookup && c.lookup[e.field.name] == e.list)
    && (forall n :: n in c.lookup ==>
          c.lookup[n] < |c.lists| && c.lists[c.lookup[n]] == OfName(c.table, n) && OfName(c.table, n) != [])
  }

  ghost function OfName(t: seq<Entry>, n: seq<Octet>): (r: seq<Entry>)
    ensures forall e :: e in r <==> e in t && e.field.name == n
  {
    if t == [] then [] else (if t[0].field.name == n then [t[0]] else []) + OfName(t[1..], n)
  }

  // Eviction

  /** `llist_del` of the node an entry remembers: the last one appended for it. */
  function RemoveLast(s: seq<Entry>, e: Entry): (r: seq<Entry>)
    ensures forall x :: x in r ==> x in s
    ensures r == [] && s != [] ==> e in s
    ensures forall x :: x in s && x != e ==> x in r
  {
    if s == [] then []
    else if s[|s| - 1] == e then s[..|s| - 1]
    else RemoveLast(s[..|s| - 1], e) + [s[|s| - 1]]
  }

  lemma {:induction false} DistinctSnoc(s: seq<Entry>, x: Entry)
    requires Distinct(s) && x !in s
    ensures Distinct(s + [x])
  {
    var t := s + [x];
    forall i, j | 0 <= i < j < |t| ensures t[i] != t[j] {
      assert t[i] == s[i];
    }
  }

  lemma {:induction false} RemoveFromDistinct(s: seq<Entry>, e: Entry)
    requires Distinct(s)
    ensures Distinct(RemoveLast(s, e)) && e !in RemoveLast(s, e)
  {
    if s != [] {
      var front, last := s[..|s| - 1], s[|s| - 1];
      RemoveFromDistinct(front, e);
      if last != e {
        forall x | x in RemoveLast(front, e) ensures x != last {
          var i :| 0 <= i < |front| && front[i] == x;
          assert s[i] != s[|s| - 1];
        }
        DistinctSnoc(RemoveLast(front, e), last);
      } else {
        assert forall i :: 0 <= i < |front| ==> s[i] != s[|s| - 1];
      }
    }
  }

  lemma TotalSizeFirst(t: seq<Entry>)
    requires t != []
    ensures TotalSize(t) >= t[0].size && TotalSize(t[1..]) == TotalSize(t) - t[0].size
  {
  }

  /** One turn of the loop in `hpack_fix`. */
  function PopOldest(c: Context): (r: Context)
    requires Consistent(c) && c.table != []
    ensures Consistent(r) && r.table == c.table[1..]
    ensures r.maxSize == c.maxSize && r.currentMax == c.currentMax && r.pushIndex == c.pushIndex
  {
    var e := c.table[0];
    TotalSizeFirst(c.table);
    var list := RemoveLast(c.lists[e.list], e);
    c.(table := c.table[1..],
       lists := c.lists[e.list := list],
       lookup := if list == [] then c.lookup - {e.field.name} else c.lookup,
       dynamicSize := c.dynamicSize - e.size)
  }

  /** `hpack_fix` */
  function Fix(c: Context, extra: nat): (r: Context)
    requires Consistent(c)
    ensures Consistent(r)
    ensures r.maxSize == c.maxSize && r.currentMax == c.currentMax && r.pushIndex == c.pushIndex
    ensures r.dynamicSize + extra <= r.maxSize || r.table == []
    decreases |c.table|
  {
    if c.dynamicSize + extra > c.maxSize && c.table != [] then Fix(PopOldest(c), extra) else c
  }

  lemma {:induction false} FixLeavesNewest(c: Context, extra: nat)
    requires Consistent(c)
    ensures var r := Fix(c, extra); |r.table| <= |c.table| && r.table == c.table[|c.table| - |r.table|..]
    decreases |c.table|
  {
    hide Consistent, PopOldest;
    if c.dynamicSize + extra > c.maxSize && c.table != [] {
      FixLeavesNewest(PopOldest(c), extra);
    }
  }

  // Lookup and insertion

  /** `queue_index` on the evicted table, newest entry first. */
  function DynamicAt(c: Context, position: nat): Option<Entry> {
    if position < |c.table| then Some(c.table[|c.table| - 1 - position]) else None
  }

  /** `hpack_add_entry` after its eviction, then the append to a lookup list: the one the caller holds, or
      a new one that it maps.  `copies` is how many nodes the caller appends for the entry. */
  function Append(c: Context, f: Field, held: Option<nat>, copies: nat): (r: Context)
    requires Consistent(c) && (held.Some? ==> held.value < |c.lists|)
    ensures Consistent(r) && r.maxSize == c.maxSize && r.pushIndex == c.pushIndex + 1
    ensures |r.table| == |c.table| + 1 && r.table[..|c.table|] == c.table && r.table[|c.table|].field == f
  {
    var l := if held.Some? then held.value else |c.lists|;
    var e := Entry(f, FieldSize(f), c.pushIndex, l);
    var lists := if held.Some? then c.lists else c.lists + [[]];
    TotalSizeAppend(c.table, e);
    c.(table := c.table + [e],
       lists := lists[l := lists[l] + seq(copies, _ => e)],
       lookup := if held.Some? then c.lookup else c.lookup[f.name := l],
       dynamicSize := c.dynamicSize + e.size,
       pushIndex := c.pushIndex + 1)
  }

  lemma {:induction false} TotalSizeAppend(t: seq<Entry>, e: Entry)
    ensures TotalSize(t + [e]) == TotalSize(t) + e.size
  {
    if t == [] {
      assert [e][1..] == [];
      assert t + [e] == [e];
    } else {
      assert (t + [e])[1..] == t[1..] + [e];
      TotalSizeAppend(t[1..], e);
    }
  }

  /** The decoder looks the list up after the eviction and appends one node. */
  function AddDecoded(c: Context, f: Field): Context
    requires Consistent(c) && Named(Fix(c, FieldSize(f)))
  {
    var fixed := Fix(c, FieldSize(f));
    Append(fixed, f, if f.name in fixed.lookup then Some(fixed.lookup[f.name]) else None, 1)
  }

  /** The encoder looks the list up before the eviction. */
  function AddEncoded(c: Context, f: Field, copies: nat): Context
    requires Consistent(c) && Named(c)
  {
    var held := if f.name in c.lookup then Some(c.lookup[f.name]) else None;
    FixKeepsLists(c, FieldSize(f));
    Append(Fix(c, FieldSize(f)), f, held, copies)
  }

  /** Eviction only removes: lists keep their place, and names are unmapped but never remapped. */
  ghost predicate ListsKept(c: Context, r: Context) {
    && |r.lists| == |c.lists|
    && (forall n :: n in r.lookup ==> n in c.lookup && r.lookup[n] == c.lookup[n])
    && (forall l, e :: 0 <= l < |c.lists| && e in r.lists[l] ==> e in c.lists[l])
  }

  lemma {:induction false} FixKeepsLists(c: Context, extra: nat)
    requires Consistent(c)
    ensures ListsKept(c, Fix(c, extra))
    decreases |c.table|
  {
    hide ListsKept, PopOldest;
    ListsKeptSelf(c);
    if c.dynamicSize + extra > c.maxSize && c.table != [] {
      var p := PopOldest(c);
      PopKeepsLists(c);
      FixKeepsLists(p, extra);
      ListsKeptTwice(c, p, Fix(p, extra));
    }
  }

  lemma ListsKeptSelf(c: Context)
    ensures ListsKept(c, c)
  {
  }

  lemma ListsKeptTwice(a: Context, b: Context, c: Context)
    requires ListsKept(a, b) && ListsKept(b, c)
    ensures ListsKept(a, c)
  {
  }

  lemma {:induction false} PopKeepsLists(c: Context)
    requires Consistent(c) && c.table != []
    ensures ListsKept(c, PopOldest(c))
  {
  }

  // Eviction keeps the invariants

  lemma {:induction false} PopKeepsNamed(c: Context)
    requires Consistent(c) && Named(c) && c.table != []
    ensures Named(PopOldest(c))
  {
    var e, r := c.table[0], PopOldest(c);
    forall n | n in r.lookup
      ensures r.lookup[n] < |r.lists| && r.lists[r.lookup[n]] != []
      ensures forall x :: x in r.lists[r.lookup[n]] ==> x.field.name == n
    {
      var l := c.lookup[n];
      assert forall x :: x in r.lists[l] ==> x in c.lists[l];
      if l == e.list && r.lists[l] == [] {
        assert false;
      }
    }
    forall l, x | 0 <= l < |r.lists| && x in r.lists[l] ensures Dated(r, x) {
      assert x in c.lists[l] && Dated(c, x);
    }
  }

  lemma {:induction false} PopKeepsSound(c: Context)
    requires Consistent(c) && IndexSound(c) && c.table != []
    ensures IndexSound(PopOldest(c))
  {
    var e, r := c.table[0], PopOldest(c);
    forall l | 0 <= l < |r.lists| ensures ListSound(r, l) {
      assert ListSound(c, l);
      if l == e.list {
        RemoveFromDistinct(c.lists[l], e);
      }
      forall x | x in r.lists[l] ensures x in r.table && x.list == l {
        assert x in c.lists[l] && x in c.table && x.list == l;
        assert x != e;
      }
    }
  }

  /** Names are mapped to different lists. */
  lemma {:induction false} ListsApart(c: Context, m: seq<Octet>, n: seq<Octet>)
    requires IndexExact(c) && m in c.lookup && n in c.lookup && c.lookup[m] == c.lookup[n]
    ensures m == n
  {
    var x := OfName(c.table, m)[0];
    assert x in c.lists[c.lookup[m]] && x in OfName(c.table, n);
  }

  lemma {:induction false} OldestIsOnce(c: Context)
    requires Consistent(c) && c.table != []
    ensures c.table[0] !in c.table[1..]
  {
  }

  lemma {:induction false} PopKeepsExact(c: Context)
    requires Consistent(c) && IndexExact(c) && c.table != []
    ensures IndexExact(PopOldest(c))
  {
    hide OfName, RemoveLast, TotalSize, FieldSize;
    var e, r := c.table[0], PopOldest(c);
    var n0, rest := e.field.name, c.table[1..];
    OldestIsOnce(c);
    assert e in c.table;
    OfNameFirst(c.table);
    RemoveFirst(e, OfName(rest, n0));
    forall n | n in r.lookup
      ensures r.lookup[n] < |r.lists| && r.lists[r.lookup[n]] == OfName(r.table, n) && OfName(r.table, n) != []
    {
      if n != n0 && c.lookup[n] == e.list {
        ListsApart(c, n, n0);
      }
    }
    forall x | x in r.table ensures x.field.name in r.lookup && r.lookup[x.field.name] == x.list {
      assert x in c.table && x in OfName(rest, x.field.name);
    }
  }

  lemma {:induction false} OfNameFirst(t: seq<Entry>)
    requires t != []
    ensures forall n :: OfName(t, n) == (if t[0].field.name == n then [t[0]] + OfName(t[1..], n) else OfName(t[1..], n))
  {
  }

  lemma {:induction false} RemoveFirst(e: Entry, s: seq<Entry>)
    requires e !in s
    ensures RemoveLast([e] + s, e) == s
  {
    if s == [] {
      assert [e] + s == [e];
    } else {
      assert ([e] + s)[..|s|] == [e] + s[..|s| - 1];
      RemoveFirst(e, s[..|s| - 1]);
    }
  }

  /** `hpack_fix` keeps every invariant. */
  lemma {:induction false} FixKeeps(c: Context, extra: nat)
    requires Consistent(c)
    ensures Named(c) ==> Named(Fix(c, extra))
    ensures IndexSound(c) ==> IndexSound(Fix(c, extra))
    ensures IndexExact(c) ==> IndexExact(Fix(c, extra))
    ensures Settled(c) ==> Settled(Fix(c, extra))
    decreases |c.table|
  {
    hide PopOldest, Named, IndexSound, IndexExact;
    if c.dynamicSize + extra > c.maxSize && c.table != [] {
      if Named(c) { PopKeepsNamed(c); }
      if IndexSound(c) { PopKeepsSound(c); }
      if IndexExact(c) { PopKeepsExact(c); }
      FixKeeps(PopOldest(c), extra);
    }
  }

  // Insertion keeps the invariants

  /** The list an insertion goes to holds entries of that name only, and no other name is mapped to it. */
  ghost predicate Holdable(c: Context, n: seq<Octet>, held: Option<nat>) {
    held.Some? ==>
      && held.value < |c.lists|
      && (forall e :: e in c.lists[held.value] ==> e.field.name == n)
      && (forall m :: m in c.lookup && c.lookup[m] == held.value ==> m == n)
  }

  lemma {:induction false} AppendKeepsNamed(c: Context, f: Field, held: Option<nat>, copies: nat)
    requires Consistent(c) && Named(c) && Holdable(c, f.name, held) && copies > 0
    ensures Named(Append(c, f, held, copies))
  {
    var r := Append(c, f, held, copies);
    var l := if held.Some? then held.value else |c.lists|;
    var e := Entry(f, FieldSize(f), c.pushIndex, l);
    assert forall x :: x in r.lists[l] ==> x == e || (held.Some? && x in c.lists[l]);
    forall n | n in r.lookup
      ensures r.lookup[n] < |r.lists| && r.lists[r.lookup[n]] != []
      ensures forall x :: x in r.lists[r.lookup[n]] ==> x.field.name == n
    {
      assert r.lists[l] != [];
    }
    forall k, x | 0 <= k < |r.lists| && x in r.lists[k] ensures Dated(r, x) {
      if x != e {
        assert x in c.lists[k] && Dated(c, x);
      }
    }
  }

  /** The decoder's insertion keeps its index exact. */
  lemma {:induction false} AddDecodedKeepsExact(c: Context, f: Field)
    requires Consistent(c) && Named(c) && IndexExact(c)
    ensures Named(Fix(c, FieldSize(f))) && Consistent(AddDecoded(c, f))
    ensures Named(AddDecoded(c, f)) && IndexExact(AddDecoded(c, f)) && Settled(AddDecoded(c, f))
  {
    FixKeeps(c, FieldSize(f));
    var d := Fix(c, FieldSize(f));
    var held := if f.name in d.lookup then Some(d.lookup[f.name]) else None;
    forall m | m in d.lookup && held.Some? && d.lookup[m] == held.value ensures m == f.name {
      ListsApart(d, m, f.name);
    }
    AppendKeepsNamed(d, f, held, 1);
    AppendKeepsExact(d, f, held);
  }

  lemma {:induction false} AppendKeepsExact(d: Context, f: Field, held: Option<nat>)
    requires Consistent(d) && IndexExact(d)
    requires held == if f.name in d.lookup then Some(d.lookup[f.name]) else None
    ensures IndexExact(Append(d, f, held, 1))
  {
    hide OfName, Consistent;
    var r := Append(d, f, held, 1);
    var e := r.table[|d.table|];
    assert r.table == d.table + [e];
    OfNameLast(d.table, e);
    assert seq(1, _ => e) == [e];
    if held.None? {
      NoneOfName(d, f.name);
    }
    forall n | n in r.lookup
      ensures r.lookup[n] < |r.lists| && r.lists[r.lookup[n]] == OfName(r.table, n) && OfName(r.table, n) != []
    {
      if n != f.name {
        if r.lookup[n] == e.list {
          ListsApart(d, n, f.name);
        }
      }
    }
  }

  lemma {:induction false} NoneOfName(d: Context, n: seq<Octet>)
    requires IndexExact(d) && n !in d.lookup
    ensures OfName(d.table, n) == []
  {
    var own := OfName(d.table, n);
    assert forall e :: e in own ==> e in d.table && e.field.name == n;
    FirstIsMember(own);
  }

  lemma FirstIsMember(s: seq<Entry>)
    ensures s != [] ==> s[0] in s
  {
  }

  lemma {:induction false} OfNameLast(t: seq<Entry>, e: Entry)
    ensures forall n :: OfName(t + [e], n) == OfName(t, n) + (if e.field.name == n then [e] else [])
  {
    forall n ensures OfName(t + [e], n) == OfName(t, n) + (if e.field.name == n then [e] else []) {
      OfNameLastAt(t, e, n);
    }
  }

  lemma {:induction false} OfNameLastAt(t: seq<Entry>, e: Entry, n: seq<Octet>)
    ensures OfName(t + [e], n) == OfName(t, n) + (if e.field.name == n then [e] else [])
  {
    if t == [] {
      assert t + [e] == [e] && [e][1..] == [];
    } else {
      assert (t + [e])[1..] == t[1..] + [e];
      OfNameLastAt(t[1..], e, n);
    }
  }

  /** The encoder's insertion keeps lists named, and sound when it appends one node. */
  lemma {:induction false} AddEncodedKeeps(c: Context, f: Field, copies: nat)
    requires Consistent(c) && Named(c) && copies > 0
    ensures Named(AddEncoded(c, f, copies)) && Consistent(AddEncoded(c, f, copies)) && Settled(AddEncoded(c, f, copies))
    ensures copies == 1 && IndexSound(c) ==> IndexSound(AddEncoded(c, f, copies))
  {
    var held := if f.name in c.lookup then Some(c.lookup[f.name]) else None;
    var d := Fix(c, FieldSize(f));
    FixKeepsLists(c, FieldSize(f));
    FixKeeps(c, FieldSize(f));
    forall m | m in d.lookup && held.Some? && d.lookup[m] == held.value ensures m == f.name {
      assert c.lists[c.lookup[m]][0].field.name == m == f.name;
    }
    AppendKeepsNamed(d, f, held, copies);
    if copies == 1 && IndexSound(c) {
      AppendKeepsSound(d, f, held);
    }
  }

  lemma {:induction false} AppendKeepsSound(d: Context, f: Field, held: Option<nat>)
    requires Consistent(d) && IndexSound(d) && (held.Some? ==> held.value < |d.lists|)
    ensures IndexSound(Append(d, f, held, 1))
  {
    var r := Append(d, f, held, 1);
    var e := r.table[|d.table|];
    assert seq(1, _ => e) == [e];
    forall l | 0 <= l < |r.lists| ensures ListSound(r, l) {
      if l < |d.lists| {
        assert ListSound(d, l);
      }
      if l == e.list {
        var before := if held.Some? then d.lists[l] else [];
        assert r.lists[l] == before + [e];
        assert forall x :: x in before ==> x in d.table;
        NewestIsNew(d, e);
        DistinctSnoc(before, e);
      }
    }
  }

  lemma {:induction false} NewestIsNew(d: Context, e: Entry)
    requires Consistent(d) && e.pushIndex == d.pushIndex
    ensures e !in d.table
  {
  }
}
