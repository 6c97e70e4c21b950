/**
 The table as the source keeps it, evicting only when it is next used, is observationally the table of
 section 4.4 of RFC 7541, which evicts at once and drops an entry that is too large.
 */
module HpackEager {
  import opened BitStrings
  import opened HpackTable
  import opened HpackStatic

  // The eager table, oldest field first

  function EagerSize(t: seq<Field>): nat {
    if t == [] then 0 else FieldSize(t[0]) + EagerSize(t[1..])
  }

  function EagerEvict(t: seq<Field>, budget: int): seq<Field> {
    if EagerSize(t) > budget && t != [] then EagerEvict(t[1..], budget) else t
  }

  function EagerAdd(t: seq<Field>, max: nat, f: Field): seq<Field> {
    if FieldSize(f) > max then [] else EagerEvict(t, max - FieldSize(f)) + [f]
  }

  /** Section 2.3.3 of RFC 7541: indices up to 61 are static, then the newest dynamic entry is 62. */
  function EagerLookup(t: seq<Field>, index: nat): Option<Field> {
    if index == 0 then None
    else if index <= STATIC_COUNT then
      Some(Field(StaticName(index), if StaticValue(index).Some? then StaticValue(index).value else []))
    else if index - 62 < |t| then Some(t[|t| - 1 - (index - 62)])
    else None
  }

  // The source's lookup

  /** `hpack_lookup`: a dynamic index first evicts down to the maximum.  An entry without a value
      is read as having an empty one, as the source's callers do. */
  function Lookup(c: Context, index: nat): (Option<Field>, Context)
    requires Consistent(c)
  {
    if index == 0 then (None, c)
    else if index < 62 then
      (Some(Field(StaticName(index), if StaticValue(index).Some? then StaticValue(index).value else [])), c)
    else
      var fixed := Fix(c, 0);
      (match DynamicAt(fixed, index - 62) case None => None case Some(e) => Some(e.field), fixed)
  }

  // The view

  function Fields(t: seq<Entry>): (fs: seq<Field>)
    ensures |fs| == |t|
  {
    seq(|t|, i requires 0 <= i < |t| => t[i].field)
  }

  /** What a context's next use can see. */
  function View(c: Context): seq<Field>
    requires Consistent(c)
  {
    Fields(Fix(c, 0).table)
  }

  lemma {:induction false} SizesAgree(t: seq<Entry>)
    requires forall e :: e in t ==> e.size == FieldSize(e.field)
    ensures EagerSize(Fields(t)) == TotalSize(t)
  {
    if t != [] {
      assert Fields(t)[1..] == Fields(t[1..]);
      SizesAgree(t[1..]);
    }
  }

  lemma {:induction false} DynamicSizeIsEager(c: Context)
    requires Consistent(c)
    ensures EagerSize(Fields(c.table)) == c.dynamicSize
  {
    SizesAgree(c.table);
  }

  lemma {:induction false} FixEvicts(c: Context, extra: nat)
    requires Consistent(c)
    ensures Fields(Fix(c, extra).table) == EagerEvict(Fields(c.table), c.maxSize - extra)
    decreases |c.table|
  {
    hide FieldSize, TotalSize, EagerSize, Consistent, PopOldest;
    DynamicSizeIsEager(c);
    if c.dynamicSize + extra > c.maxSize && c.table != [] {
      var p := PopOldest(c);
      assert Fields(c.table)[1..] == Fields(p.table);
      FixEvicts(p, extra);
    }
  }

  lemma {:induction false} EvictTwice(t: seq<Field>, a: int, b: int)
    requires b <= a
    ensures EagerEvict(EagerEvict(t, a), b) == EagerEvict(t, b)
  {
    if EagerSize(t) > a && t != [] {
      EvictTwice(t[1..], a, b);
    }
  }

  lemma {:induction false} EvictFits(t: seq<Field>, budget: int)
    ensures EagerSize(EagerEvict(t, budget)) <= budget || EagerEvict(t, budget) == []
    ensures budget < 0 ==> EagerEvict(t, budget) == []
  {
    if EagerSize(t) > budget && t != [] {
      EvictFits(t[1..], budget);
    }
  }

  lemma {:induction false} EagerSizeAppend(t: seq<Field>, f: Field)
    ensures EagerSize(t + [f]) == EagerSize(t) + FieldSize(f)
  {
    if t == [] {
      assert t + [f] == [f] && [f][1..] == [];
    } else {
      assert (t + [f])[1..] == t[1..] + [f];
      EagerSizeAppend(t[1..], f);
    }
  }

  lemma {:induction false} LateEviction(t: seq<Field>, max: nat, f: Field)
    ensures EagerEvict(EagerEvict(t, max - FieldSize(f)) + [f], max) == EagerAdd(EagerEvict(t, max), max, f)
  {
    hide FieldSize;
    var size := FieldSize(f);
    var kept := EagerEvict(t, max - size);
    EvictFits(t, max - size);
    EagerSizeAppend(kept, f);
    if size <= max {
      EvictTwice(t, max, max - size);
    } else {
      assert kept + [f] == [f] && [f][1..] == [];
    }
  }

  lemma FieldsAppend(t: seq<Entry>, r: seq<Entry>, f: Field)
    requires |r| == |t| + 1 && r[..|t|] == t && r[|t|].field == f
    ensures Fields(r) == Fields(t) + [f]
  {
  }

  lemma {:induction false} AddSeen(c: Context, d: Context, r: Context, f: Field)
    requires Consistent(c) && Consistent(r) && d == Fix(c, FieldSize(f)) && r.maxSize == c.maxSize
    requires |r.table| == |d.table| + 1 && r.table[..|d.table|] == d.table && r.table[|d.table|].field == f
    ensures View(r) == EagerAdd(View(c), c.maxSize, f)
  {
    hide FieldSize, Consistent, Fix, EagerEvict, EagerAdd, Fields;
    FixEvicts(c, FieldSize(f));
    FixEvicts(c, 0);
    FixEvicts(r, 0);
    FieldsAppend(d.table, r.table, f);
    LateEviction(Fields(c.table), c.maxSize, f);
  }

  /** An insertion is seen as the eager insertion, whichever list the entry is put in: an oversized entry
      is stored by itself, but the next use evicts it before it can be seen. */
  lemma {:induction false} AddRefinesEager(c: Context, f: Field, held: Option<nat>, copies: nat)
    requires Consistent(c) && (held.Some? ==> held.value < |Fix(c, FieldSize(f)).lists|)
    ensures View(Append(Fix(c, FieldSize(f)), f, held, copies)) == EagerAdd(View(c), c.maxSize, f)
  {
    hide FieldSize, Consistent, Fix, EagerAdd, Append, View;
    var d := Fix(c, FieldSize(f));
    AddSeen(c, d, Append(d, f, held, copies), f);
  }

  lemma {:induction false} LookupRefinesEager(c: Context, index: nat)
    requires Consistent(c)
    ensures Lookup(c, index).0 == EagerLookup(View(c), index)
    ensures Consistent(Lookup(c, index).1) && View(Lookup(c, index).1) == View(c)
  {
    hide StaticName, StaticValue, FieldSize, Consistent, Fix;
    FixTwice(c);
  }

  lemma {:induction false} FixTwice(c: Context)
    requires Consistent(c)
    ensures Fix(Fix(c, 0), 0) == Fix(c, 0)
  {
  }

  lemma {:induction false} LookupKeeps(c: Context, index: nat)
    requires Consistent(c)
    ensures var d := Lookup(c, index).1;
            && Consistent(d) && d.maxSize == c.maxSize
            && (Named(c) ==> Named(d)) && (IndexExact(c) ==> IndexExact(d)) && (Settled(c) ==> Settled(d))
  {
    hide Consistent, Named, IndexExact, Settled, StaticName, StaticValue, Fix;
    FixKeeps(c, 0);
  }

  // Whole runs

  datatype Use = Insert(field: Field) | Find(index: nat)

  /** The answers to the lookups of a run of the decoder's table at a fixed maximum, and its last state. */
  function RunLazy(c: Context, uses: seq<Use>): (seq<Option<Field>>, Context)
    requires Consistent(c) && Named(c) && IndexExact(c)
    decreases |uses|
  {
    hide Consistent, Named, IndexExact, Append, FieldSize, Fix;
    if uses == [] then ([], c)
    else
      match uses[0]
      case Insert(f) =>
        AddDecodedKeepsExact(c, f);
        RunLazy(AddDecoded(c, f), uses[1..])
      case Find(index) =>
        LookupKeeps(c, index);
        var (answer, d) := Lookup(c, index);
        var (rest, last) := RunLazy(d, uses[1..]);
        ([answer] + rest, last)
  }

  function RunEager(t: seq<Field>, max: nat, uses: seq<Use>): (seq<Option<Field>>, seq<Field>)
    decreases |uses|
  {
    if uses == [] then ([], t)
    else
      match uses[0]
      case Insert(f) => RunEager(EagerAdd(t, max, f), max, uses[1..])
      case Find(index) =>
        var (rest, last) := RunEager(t, max, uses[1..]);
        ([EagerLookup(t, index)] + rest, last)
  }

  /** Over every run, the lazy table answers as the eager one, and every reached context keeps its
      sizes, push indices and name index. */
  lemma {:induction false} RunsAgree(c: Context, uses: seq<Use>)
    requires Consistent(c) && Named(c) && IndexExact(c) && Settled(c)
    ensures RunLazy(c, uses).0 == RunEager(View(c), c.maxSize, uses).0
    ensures var last := RunLazy(c, uses).1;
            && Consistent(last) && Named(last) && IndexExact(last) && Settled(last)
            && View(last) == RunEager(View(c), c.maxSize, uses).1
    decreases |uses|
  {
    hide Consistent, Named, IndexExact, Settled, Append, FieldSize, View, EagerAdd, EagerLookup, Lookup, Fix;
    if uses != [] {
      match uses[0]
      case Insert(f) =>
        AddDecodedKeepsExact(c, f);
        var d := Fix(c, FieldSize(f));
        NamedListExists(d, f.name);
        AddRefinesEager(c, f, if f.name in d.lookup then Some(d.lookup[f.name]) else None, 1);
        RunsAgree(AddDecoded(c, f), uses[1..]);
      case Find(index) =>
        LookupKeeps(c, index);
        LookupRefinesEager(c, index);
        RunsAgree(Lookup(c, index).1, uses[1..]);
    }
  }

  lemma NamedListExists(c: Context, n: seq<Octet>)
    requires Named(c)
    ensures n in c.lookup ==> c.lookup[n] < |c.lists|
  {
  }
}
