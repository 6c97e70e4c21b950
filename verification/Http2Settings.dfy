/** What the settings of a whole run leave: the last value of each key, from wherever it came. */
module Http2Settings {
  import opened BitStrings
  import opened HpackTable
  import opened HpackCodec
  import opened Http2Frame
  import opened Http2Wire
  import opened Http2Streams

  /** The value of the last entry with a key, or what was there before. */
  function LastValue(entries: seq<Setting>, key: U16, before: nat): nat {
    if entries == [] then before
    else
      var last := entries[|entries| - 1];
      if last.key == key then last.value else LastValue(entries[..|entries| - 1], key, before)
  }

  function AtMost(value: nat, limit: nat): nat {
    if value > limit then limit else value
  }

  /** An entry that asks for frames of less than 256 octets. */
  ghost predicate TooSmall(entries: seq<Setting>) {
    exists i :: 0 <= i < |entries| && entries[i].key == 5 && entries[i].value < 256
  }

  lemma {:induction false} LastValueConcat(a: seq<Setting>, b: seq<Setting>, key: U16, before: nat)
    ensures LastValue(a + b, key, before) == LastValue(b, key, LastValue(a, key, before))
    decreases |b|
  {
    if b == [] {
      assert a + b == a;
    } else {
      assert (a + b)[..|a + b| - 1] == a + b[..|b| - 1];
      LastValueConcat(a, b[..|b| - 1], key, before);
    }
  }

  lemma {:induction false} LastValueCons(entries: seq<Setting>, key: U16, before: nat)
    requires entries != []
    ensures LastValue(entries, key, before)
         == LastValue(entries[1..], key, if entries[0].key == key then entries[0].value else before)
  {
    LastValueConcat([entries[0]], entries[1..], key, before);
    assert entries == [entries[0]] + entries[1..] && [entries[0]][..0] == [];
  }

  /** SETTINGS_HEADER_TABLE_SIZE, key 1, sets the encoder's maximum, and SETTINGS_MAX_FRAME_SIZE, key 5, the limit
      of sent frames, which is cut to 65536; a value below 256 there closes the connection. */
  lemma {:induction false} AppliedMeans(c: Connection, entries: seq<Setting>)
    requires c.otherMaxFrameSize <= 65536
    ensures ApplySettings(c, entries).None? <==> TooSmall(entries)
    ensures ApplySettings(c, entries).Some? ==>
              ApplySettings(c, entries).value
              == c.(encoderMax := LastValue(entries, 1, c.encoderMax),
                    otherMaxFrameSize := AtMost(LastValue(entries, 5, c.otherMaxFrameSize), 65536))
    decreases |entries|
  {
    if entries != [] {
      var e, rest := entries[0], entries[1..];
      LastValueCons(entries, 1, c.encoderMax);
      LastValueCons(entries, 5, c.otherMaxFrameSize);
      TooSmallCons(entries);
      var d := if e.key == 1 then c.(encoderMax := e.value)
               else if e.key == 5 then c.(otherMaxFrameSize := AtMost(e.value, 65536)) else c;
      if !(e.key == 5 && e.value < 256) {
        AppliedMeans(d, rest);
        if e.key == 5 {
          CutOnce(rest, e.value);
        }
      }
    }
  }

  lemma {:induction false} TooSmallCons(entries: seq<Setting>)
    requires entries != []
    ensures TooSmall(entries) <==> (entries[0].key == 5 && entries[0].value < 256) || TooSmall(entries[1..])
  {
    var rest := entries[1..];
    if i :| 0 <= i < |entries| && entries[i].key == 5 && entries[i].value < 256 {
      assert i > 0 ==> rest[i - 1] == entries[i];
    }
    if i :| 0 <= i < |rest| && rest[i].key == 5 && rest[i].value < 256 {
      assert entries[i + 1] == rest[i];
    }
  }

  lemma {:induction false} CutOnce(entries: seq<Setting>, before: nat)
    ensures AtMost(LastValue(entries, 5, AtMost(before, 65536)), 65536) == AtMost(LastValue(entries, 5, before), 65536)
    decreases |entries|
  {
    if entries != [] {
      CutOnce(entries[..|entries| - 1], before);
    }
  }

  // Whole runs

  /** The entries of a frame of SETTINGS that is not an acknowledgement. */
  function SettingsIn(e: Event): seq<Setting> {
    if e.Incoming? && e.frame.payload.Settings? && !Flag(e.frame.flags, 0x01) then e.frame.payload.entries else []
  }

  function AllSettings(events: seq<Event>): seq<Setting> {
    if events == [] then [] else SettingsIn(events[0]) + AllSettings(events[1..])
  }

  /** What one event does to the two limits. */
  lemma {:induction false} EventLimits(c: Connection, maxPost: nat, e: Event)
    requires Ready(c.decoder) && c.otherMaxFrameSize <= 65536 && After(c, maxPost, e).Live?
    ensures var d, entries := After(c, maxPost, e).connection, SettingsIn(e);
            && !TooSmall(entries)
            && d.encoderMax == LastValue(entries, 1, c.encoderMax)
            && d.otherMaxFrameSize == AtMost(LastValue(entries, 5, c.otherMaxFrameSize), 65536)
  {
    hide Ready, DecodeFromOctet, ApplySettings, LastValue;
    NoSettings(c);
    if e.Incoming? {
      FlagBits(e.frame.flags);
      if e.frame.payload.Settings? {
        AppliedMeans(c, e.frame.payload.entries);
      }
    }
  }

  lemma NoSettings(c: Connection)
    ensures LastValue([], 1, c.encoderMax) == c.encoderMax
    ensures LastValue([], 5, c.otherMaxFrameSize) == c.otherMaxFrameSize
  {
  }

  lemma {:induction false} TooSmallConcat(a: seq<Setting>, b: seq<Setting>)
    ensures TooSmall(a + b) <==> TooSmall(a) || TooSmall(b)
  {
    var all := a + b;
    if i :| 0 <= i < |a| && a[i].key == 5 && a[i].value < 256 {
      assert all[i] == a[i];
    }
    if i :| 0 <= i < |b| && b[i].key == 5 && b[i].value < 256 {
      assert all[|a| + i] == b[i];
    }
  }

  lemma {:induction false} TraceLimits(c: Connection, maxPost: nat, events: seq<Event>)
    requires Ready(c.decoder) && c.otherMaxFrameSize <= 65536
    ensures var last, all := Trace(c, maxPost, events).1, AllSettings(events);
            last.Some? ==>
              && !TooSmall(all)
              && last.value.encoderMax == LastValue(all, 1, c.encoderMax)
              && last.value.otherMaxFrameSize == AtMost(LastValue(all, 5, c.otherMaxFrameSize), 65536)
    decreases |events|
  {
    hide Ready, After, LastValue, TooSmall;
    if events == [] {
      NoSettings(c);
      NothingTooSmall();
    } else {
      AfterKeepsReady(c, maxPost, events[0]);
      var r := After(c, maxPost, events[0]);
      if r.Live? {
        var first, rest := SettingsIn(events[0]), AllSettings(events[1..]);
        EventLimits(c, maxPost, events[0]);
        TraceLimits(r.connection, maxPost, events[1..]);
        TooSmallConcat(first, rest);
        LastValueConcat(first, rest, 1, c.encoderMax);
        LastValueConcat(first, rest, 5, c.otherMaxFrameSize);
        CutOnce(rest, LastValue(first, 5, c.otherMaxFrameSize));
      }
    }
  }

  lemma NothingTooSmall()
    ensures !TooSmall([])
  {
  }

  /** Over every run that is still live: the encoder's maximum is the last value that any frame of SETTINGS gave
      for key 1, or 4096; the limit of sent frames is the last one for key 5, or 65536, and at most that; and no
      frame has asked for less than 256. */
  lemma {:induction false} LimitsOfRun(maxPost: nat, events: seq<Event>)
    ensures var last, all := Trace(NewConnection(), maxPost, events).1, AllSettings(events);
            last.Some? ==>
              && last.value.encoderMax == LastValue(all, 1, 4096)
              && last.value.otherMaxFrameSize == AtMost(LastValue(all, 5, 65536), 65536)
              && !TooSmall(all)
  {
    hide Ready, Trace, LastValue, TooSmall;
    TraceLimits(NewConnection(), maxPost, events);
  }

  /** The smallest table and a frame limit in one frame. */
  lemma TableOffAndFrames(c: Connection)
    requires c.otherMaxFrameSize == 65536
    ensures ApplySettings(c, [Setting(1, 0), Setting(5, 16384)])
         == Some(c.(encoderMax := 0, otherMaxFrameSize := 16384))
    ensures ApplySettings(c, [Setting(5, 255)]).None?
  {
  }
}
