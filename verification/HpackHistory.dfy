/**
 What the dynamic table holds after a run, told by what was ever put into it: the newest fields that
 together stay within the maximum, counting the octets of names and values and 32 for each field.
 */
module HpackHistory {
  import opened BitStrings
  import opened HpackTable
  import opened HpackStatic
  import opened HpackEager

  function Names(fields: seq<Field>): seq<Octet> {
    if fields == [] then [] else fields[0].name + Names(fields[1..])
  }

  function Values(fields: seq<Field>): seq<Octet> {
    if fields == [] then [] else fields[0].value + Values(fields[1..])
  }

  function Weight(fields: seq<Field>): nat {
    |Names(fields)| + |Values(fields)| + 32 * |fields|
  }

  /** The longest end of a history that weighs at most the maximum. */
  ghost predicate IsNewest(held: seq<Field>, history: seq<Field>, max: nat) {
    && |held| <= |history| && held == history[|history| - |held|..] && Weight(held) <= max
    && forall k :: 0 <= k < |history| - |held| ==> Weight(history[k..]) > max
  }

  lemma {:induction false} NewestIsOne(a: seq<Field>, b: seq<Field>, history: seq<Field>, max: nat)
    requires IsNewest(a, history, max) && IsNewest(b, history, max)
    ensures a == b
  {
    hide Weight;
    assert history[|history| - |a|..] == a && history[|history| - |b|..] == b;
  }

  lemma {:induction false} WeightIsSize(fields: seq<Field>)
    ensures EagerSize(fields) == Weight(fields)
  {
    if fields != [] {
      WeightIsSize(fields[1..]);
    }
  }

  /** Eviction down to a budget leaves the newest of a history. */
  lemma {:induction false} EvictLeavesNewest(history: seq<Field>, max: nat)
    ensures IsNewest(EagerEvict(history, max), history, max)
    decreases |history|
  {
    hide Weight, EagerSize;
    WeightIsSize(history);
    if EagerSize(history) > max && history != [] {
      var rest := history[1..];
      EvictLeavesNewest(rest, max);
      var held := EagerEvict(rest, max);
      forall k | 0 <= k < |history| - |held| ensures Weight(history[k..]) > max {
        if k > 0 {
          assert history[k..] == rest[k - 1..];
        } else {
          assert history[0..] == history;
        }
      }
    } else {
      WeightOfNothing();
    }
  }

  lemma WeightOfNothing()
    ensures Weight([]) == 0
  {
  }

  lemma {:induction false} EvictBehind(t: seq<Field>, f: Field, max: nat)
    ensures EagerEvict(EagerEvict(t, max - FieldSize(f)) + [f], max) == EagerEvict(t + [f], max)
    decreases |t|
  {
    hide FieldSize;
    EagerSizeAppend(t, f);
    if EagerSize(t) > max - FieldSize(f) && t != [] {
      assert (t + [f])[1..] == t[1..] + [f];
      EvictBehind(t[1..], f, max);
    }
  }

  /** An insertion keeps the newest of the longer history; a field that is too large by itself leaves
      nothing. */
  lemma {:induction false} AddLeavesNewest(held: seq<Field>, history: seq<Field>, max: nat, f: Field)
    requires IsNewest(held, history, max)
    ensures IsNewest(EagerAdd(held, max, f), history + [f], max)
    ensures |f.name| + |f.value| + 32 > max ==> EagerAdd(held, max, f) == []
  {
    hide FieldSize, EagerEvict, IsNewest, Weight;
    EvictLeavesNewest(history, max);
    NewestIsOne(held, EagerEvict(history, max), history, max);
    LateEviction(history, max, f);
    EvictBehind(history, f, max);
    EvictLeavesNewest(history + [f], max);
    SizeOf(f);
  }

  lemma SizeOf(f: Field)
    ensures FieldSize(f) == |f.name| + |f.value| + 32
  {
  }

  lemma {:induction false} ViewIsNewest(c: Context)
    requires Consistent(c)
    ensures IsNewest(View(c), View(c), c.maxSize)
  {
    hide Consistent, EagerEvict, Weight;
    FixEvicts(c, 0);
    EvictLeavesNewest(Fields(c.table), c.maxSize);
    EvictTwice(Fields(c.table), c.maxSize, c.maxSize);
    EvictLeavesNewest(View(c), c.maxSize);
  }

  // Runs

  /** The fields inserted by a run, oldest first. */
  function Inserted(uses: seq<Use>): seq<Field> {
    if uses == [] then [] else (if uses[0].Insert? then [uses[0].field] else []) + Inserted(uses[1..])
  }

  /** An answer given by the history: static entries 1 to 61, and from 62 on the newest fields. */
  ghost predicate AnswersFrom(answer: Option<Field>, index: nat, history: seq<Field>, max: nat) {
    exists held: seq<Field> :: IsNewest(held, history, max)
      && answer == if index == 0 || index > 61 + |held| then None
                   else if index < 62 then
                     Some(Field(StaticName(index), if StaticValue(index).Some? then StaticValue(index).value else []))
                   else Some(held[|held| - 1 - (index - 62)])
  }

  /** Each lookup of a run is answered by what was inserted before it. */
  ghost predicate AllAnswered(answers: seq<Option<Field>>, uses: seq<Use>, history: seq<Field>, max: nat)
    decreases |uses|
  {
    if uses == [] then answers == []
    else
      match uses[0]
      case Insert(f) => AllAnswered(answers, uses[1..], history + [f], max)
      case Find(index) =>
        answers != [] && AnswersFrom(answers[0], index, history, max)
            && AllAnswered(answers[1..], uses[1..], history, max)
  }

  /** Over every run of insertions and lookups, in any order and of any sizes, the table answers from its
      history alone, and shows the newest of it at the end. */
  lemma {:induction false} HistoryDecides(c: Context, uses: seq<Use>, history: seq<Field>)
    requires Consistent(c) && Named(c) && IndexExact(c) && Settled(c) && IsNewest(View(c), history, c.maxSize)
    ensures AllAnswered(RunLazy(c, uses).0, uses, history, c.maxSize)
    ensures Consistent(RunLazy(c, uses).1)
    ensures IsNewest(View(RunLazy(c, uses).1), history + Inserted(uses), c.maxSize)
  {
    hide Consistent, Named, IndexExact, Settled, View, IsNewest, AllAnswered;
    RunsAgree(c, uses);
    EagerHistory(View(c), c.maxSize, uses, history);
  }

  lemma {:induction false} EagerHistory(t: seq<Field>, max: nat, uses: seq<Use>, history: seq<Field>)
    requires IsNewest(t, history, max)
    ensures AllAnswered(RunEager(t, max, uses).0, uses, history, max)
    ensures IsNewest(RunEager(t, max, uses).1, history + Inserted(uses), max)
    decreases |uses|
  {
    hide IsNewest, EagerAdd, EagerLookup, AnswersFrom;
    if uses == [] {
      assert history + [] == history;
    } else {
      match uses[0]
      case Insert(f) =>
        AddLeavesNewest(t, history, max, f);
        EagerHistory(EagerAdd(t, max, f), max, uses[1..], history + [f]);
        assert history + [f] + Inserted(uses[1..]) == history + Inserted(uses);
      case Find(index) =>
        EagerHistory(t, max, uses[1..], history);
        EagerAnswer(t, index, history, max);
        var (rest, _) := RunEager(t, max, uses[1..]);
        assert ([EagerLookup(t, index)] + rest)[1..] == rest;
        assert Inserted(uses) == Inserted(uses[1..]);
    }
  }

  lemma EagerAnswer(t: seq<Field>, index: nat, history: seq<Field>, max: nat)
    requires IsNewest(t, history, max)
    ensures AnswersFrom(EagerLookup(t, index), index, history, max)
  {
    hide IsNewest, StaticName, StaticValue;
  }
}
