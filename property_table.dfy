// The property table of libcutils/properties_nonandroid.c: a fixed array of
// key/value slots filled from the property file on first use, searched by
// property_get and appended to by property_set. The file system is a
// parameter: the file is None when fopen fails, otherwise the successive
// results of fgets on it.
module PropertyTable {
  import opened Wrappers
  import opened PropertyLine
  import opened PropertyConvert

  /** strncpy into an n-character field: the field keeps at most n characters of s. */
  function Bounded(s: string, n: nat): (r: string)
    ensures |r| <= n && r <= s
    ensures |s| <= n ==> r == s
  {
    if |s| <= n then s else s[..n]
  }

  /** strncmp(slotKey, key, PROPERTY_KEY_MAX) == 0: the two agree on their
      first 32 characters, and end together when either is shorter. */
  predicate KeyMatch(slotKey: string, key: string) {
    Bounded(slotKey, PropertyKeyMax) == Bounded(key, PropertyKeyMax)
  }

  /** What fits the fixed-size fields of a slot. */
  predicate FitsSlot(e: Entry) {
    |e.key| <= PropertyKeyMax && |e.value| <= PropertyValueMax
  }

  /** A line the loader accepts: skipped, or scanned successfully. */
  predicate LineOk(line: string) {
    IsSkipped(line) || ParseLine(line).Some?
  }

  /** The 0-based position of the first line the loader rejects, or |lines|. */
  function FirstBadLine(lines: seq<string>): (j: nat)
    ensures j <= |lines|
    ensures forall i :: 0 <= i < j ==> LineOk(lines[i])
    ensures j < |lines| ==> !LineOk(lines[j])
  {
    if lines == [] || !LineOk(lines[0]) then 0 else 1 + FirstBadLine(lines[1..])
  }

  /** The first rejected line is the one after a run of accepted lines. */
  lemma FirstBadLineAt(lines: seq<string>, n: nat)
    requires n <= |lines|
    requires forall i :: 0 <= i < n ==> LineOk(lines[i])
    requires n == |lines| || !LineOk(lines[n])
    ensures FirstBadLine(lines) == n
  {
  }

  /** The entry line i stores: the fields strncpy copies out of the scan. */
  function StoredEntry(line: string): (e: Entry)
    requires ParseLine(line).Some?
    ensures FitsSlot(e)
    ensures e == ParseLine(line).value
  {
    var p := ParseLine(line).value;
    TrimNewlineOfParsed(line);
    Entry(Bounded(p.key, PropertyKeyMax), Bounded(TrimNewline(p.value), PropertyValueMax))
  }

  /** slots after the first n lines were loaded, line i into slot i. */
  function StoreLines(slots: seq<Entry>, lines: seq<string>, n: nat): seq<Entry>
    requires n <= |lines| <= |slots|
    requires forall i :: 0 <= i < n ==> LineOk(lines[i])
  {
    seq(|slots|, i requires 0 <= i < |slots| =>
      if i < n && !IsSkipped(lines[i]) then (assert LineOk(lines[i]); StoredEntry(lines[i])) else slots[i])
  }

  /** Loading one more line stores its entry, unless it is skipped. */
  lemma StoreLinesStep(slots: seq<Entry>, lines: seq<string>, n: nat)
    requires n < |lines| <= |slots|
    requires forall i :: 0 <= i <= n ==> LineOk(lines[i])
    ensures StoreLines(slots, lines, n + 1)
      == if IsSkipped(lines[n]) then StoreLines(slots, lines, n) else StoreLines(slots, lines, n)[n := StoredEntry(lines[n])]
  {
    var before, after := StoreLines(slots, lines, n), StoreLines(slots, lines, n + 1);
    var want := if IsSkipped(lines[n]) then before else before[n := StoredEntry(lines[n])];
    forall i | 0 <= i < |slots|
      ensures after[i] == want[i]
    {
      if i != n {
        assert after[i] == before[i];
      }
    }
  }

  /** The success flag, the slots and the current index after a load. */
  datatype LoadOutcome = LoadOutcome(ok: bool, slots: seq<Entry>, index: int)

  /** property_ensure_loaded run on a table never loaded before. It succeeds
      exactly when the file opens and every line is blank, a comment or
      scans; then the index is the last line's slot. Line L goes into slot
      L-1, up to the first bad line, and every other slot keeps its entry. */
  function LoadFile(slots: seq<Entry>, file: Option<seq<string>>): (o: LoadOutcome)
    requires file.Some? ==> |file.value| <= |slots|
    ensures |o.slots| == |slots|
    ensures o.ok <==> file.Some? && forall i :: 0 <= i < |file.value| ==> LineOk(file.value[i])
    ensures o.index == if o.ok then |file.value| - 1 else 0
    ensures file.Some? ==> forall i :: 0 <= i < FirstBadLine(file.value) && !IsSkipped(file.value[i]) ==>
      o.slots[i] == ParseLine(file.value[i]).value
    ensures forall i :: 0 <= i < |slots| && (file.None? || i >= FirstBadLine(file.value) || IsSkipped(file.value[i])) ==>
      o.slots[i] == slots[i]
  {
    match file
    case None => LoadOutcome(false, slots, 0)
    case Some(lines) =>
      var j := FirstBadLine(lines);
      var ok := j == |lines|;
      LoadOutcome(ok, StoreLines(slots, lines, j), if ok then |lines| - 1 else 0)
  }

  /** The table property_get searches: the same table once an index is set,
      otherwise the outcome of loading the file. */
  function Loaded(slots: seq<Entry>, index: int, file: Option<seq<string>>): LoadOutcome
    requires index < 0 && file.Some? ==> |file.value| <= |slots|
  {
    if index >= 0 then LoadOutcome(true, slots, index) else LoadFile(slots, file)
  }

  /** The first slot in from..index whose key matches. */
  function FirstMatch(slots: seq<Entry>, from: nat, index: int, key: string): (r: Option<nat>)
    requires index < |slots|
    decreases index - from + 1
    ensures r.Some? ==> from <= r.value <= index && KeyMatch(slots[r.value].key, key)
    ensures r.Some? ==> forall j :: from <= j < r.value ==> !KeyMatch(slots[j].key, key)
    ensures r.None? ==> forall j :: from <= j <= index ==> !KeyMatch(slots[j].key, key)
  {
    if from > index then None
    else if KeyMatch(slots[from].key, key) then Some(from)
    else FirstMatch(slots, from + 1, index, key)
  }

  /** property_get's return value and what it leaves in the caller's buffer
      (None: the buffer is not written). */
  datatype GetResult = GetResult(len: int, written: Option<string>)

  /** The text in a zero-initialised buffer after property_get. */
  function BufferText(g: GetResult): string {
    if g.written.Some? then g.written.value else ""
  }

  /** property_get on a loaded (or failed) table: -1 when the load failed or
      the key is null; otherwise the value of the first matching slot in
      0..index, else the default cut to 91 characters, else 0 with nothing
      written. The result is the length of the text written. */
  function Lookup(ok: bool, slots: seq<Entry>, index: int, key: Option<string>, default: Option<string>): (g: GetResult)
    requires index < |slots|
    ensures g.len == -1 <==> !ok || key.None?
    ensures g.len == -1 ==> g.written.None?
    ensures g.written.Some? ==> g.len == |g.written.value| <= PropertyValueMax
    ensures g.written.None? ==> g.len <= 0
    ensures ok && key.Some? && default.Some? ==> g.written.Some?
    ensures ok && key.Some? ==> forall i :: 0 <= i <= index && KeyMatch(slots[i].key, key.value) ==> g.written.Some?
    ensures ok && key.Some? && default.None? && (forall i :: 0 <= i <= index ==> !KeyMatch(slots[i].key, key.value)) ==>
      g == GetResult(0, None)
  {
    if !ok || key.None? then GetResult(-1, None)
    else match FirstMatch(slots, 0, index, key.value)
      case Some(i) =>
        var v := Bounded(slots[i].value, PropertyValueMax);
        GetResult(|v|, Some(v))
      case None =>
        if default.Some? then
          var v := Bounded(default.value, PropertyValueMax - 1);
          GetResult(|v|, Some(v))
        else GetResult(0, None)
  }

  /** The first matching slot decides the lookup. */
  lemma LookupFindsFirst(slots: seq<Entry>, index: int, key: string, default: Option<string>, i: nat)
    requires index < |slots| && i <= index
    requires KeyMatch(slots[i].key, key) && forall j :: 0 <= j < i ==> !KeyMatch(slots[j].key, key)
    requires FitsSlot(slots[i])
    ensures Lookup(true, slots, index, Some(key), default) == GetResult(|slots[i].value|, Some(slots[i].value))
  {
  }

  /** With no matching slot, the lookup gives the default cut to 91 characters,
      and with no default it returns 0 and leaves the buffer untouched. */
  lemma LookupMissing(slots: seq<Entry>, index: int, key: string, default: string)
    requires index < |slots|
    requires forall j :: 0 <= j <= index ==> !KeyMatch(slots[j].key, key)
    ensures Lookup(true, slots, index, Some(key), Some(default)).written == Some(Bounded(default, PropertyValueMax - 1))
    ensures |default| < PropertyValueMax ==> Lookup(true, slots, index, Some(key), Some(default)).written == Some(default)
    ensures Lookup(true, slots, index, Some(key), None) == GetResult(0, None)
  {
  }

  /** Searching after property_set wrote slot index and moved the index past
      it: an earlier slot with the key still wins; otherwise the lookup finds
      the slot just written. */
  lemma {:induction false} FirstMatchAfterSet(slots: seq<Entry>, from: nat, index: nat, key: string, e: Entry)
    requires index + 1 < |slots| && from <= index
    requires KeyMatch(e.key, key)
    ensures FirstMatch(slots[index := e], from, index + 1, key)
      == if FirstMatch(slots, from, index - 1, key).Some? then FirstMatch(slots, from, index - 1, key) else Some(index)
    decreases index - from
  {
    var s' := slots[index := e];
    if from < index && !KeyMatch(slots[from].key, key) {
      FirstMatchAfterSet(slots, from + 1, index, key, e);
    }
  }

  /** property_set then property_get: the key reads back the value just set,
      cut to the field sizes, unless a slot before it already holds the key. */
  lemma SetThenGet(slots: seq<Entry>, index: nat, key: string, value: string, default: Option<string>)
    requires index + 1 < |slots|
    requires forall j :: 0 <= j < index ==> FitsSlot(slots[j])
    ensures var e := Entry(Bounded(key, PropertyKeyMax), Bounded(value, PropertyValueMax));
      Lookup(true, slots[index := e], index + 1, Some(key), default)
        == match FirstMatch(slots, 0, index - 1, key)
           case Some(j) => GetResult(|slots[j].value|, Some(slots[j].value))
           case None => GetResult(|e.value|, Some(e.value))
  {
    var e := Entry(Bounded(key, PropertyKeyMax), Bounded(value, PropertyValueMax));
    assert KeyMatch(e.key, key);
    if index == 0 {
      assert FirstMatch(slots[index := e], 0, index + 1, key) == Some(0);
    } else {
      FirstMatchAfterSet(slots, 0, index, key, e);
    }
  }

  /** property_set as written loses the last line of the file: after a load
      the index names that line's slot, and property_set writes over it. A
      key only that line set then reads as missing. */
  lemma SetOverwritesLastLoaded(slots: seq<Entry>, lines: seq<string>, key: string, value: string, default: Option<string>)
    requires 1 <= |lines| < |slots|
    requires LoadFile(slots, Some(lines)).ok
    requires !IsSkipped(lines[|lines| - 1]) && ParseLine(lines[|lines| - 1]).Some?
    requires var k := ParseLine(lines[|lines| - 1]).value.key;
      && !KeyMatch(key, k) && !KeyMatch(slots[|lines|].key, k)
      && FirstMatch(LoadFile(slots, Some(lines)).slots, 0, |lines| - 2, k).None?
    ensures var o := LoadFile(slots, Some(lines));
      var last := ParseLine(lines[|lines| - 1]).value;
      var e := Entry(Bounded(key, PropertyKeyMax), Bounded(value, PropertyValueMax));
      && o.index == |lines| - 1
      && Lookup(true, o.slots, o.index, Some(last.key), default) == GetResult(|last.value|, Some(last.value))
      && Lookup(true, o.slots[o.index := e], o.index + 1, Some(last.key), default).written
         == if default.Some? then Some(Bounded(default.value, PropertyValueMax - 1)) else None
  {
    var o := LoadFile(slots, Some(lines));
    LoadedLast(slots, lines);
    OverwriteLast(o.slots, |lines| - 1, ParseLine(lines[|lines| - 1]).value.key,
      Entry(Bounded(key, PropertyKeyMax), Bounded(value, PropertyValueMax)), default);
  }

  /** After a successful load the index names the last line's slot, which
      holds that line's entry, and the slot after it is untouched. */
  lemma LoadedLast(slots: seq<Entry>, lines: seq<string>)
    requires 1 <= |lines| < |slots|
    requires LoadFile(slots, Some(lines)).ok
    requires !IsSkipped(lines[|lines| - 1]) && ParseLine(lines[|lines| - 1]).Some?
    ensures var o := LoadFile(slots, Some(lines));
      && o.index == |lines| - 1
      && o.slots[|lines| - 1] == ParseLine(lines[|lines| - 1]).value
      && o.slots[|lines|] == slots[|lines|]
  {
    FirstBadLineAt(lines, |lines|);
  }

  /** Writing slot idx with another key and searching one slot further:
      a key that only slot idx held is no longer found. */
  lemma OverwriteLast(t: seq<Entry>, idx: nat, k: string, e: Entry, default: Option<string>)
    requires idx + 1 < |t| && FitsSlot(t[idx])
    requires KeyMatch(t[idx].key, k) && FirstMatch(t, 0, idx - 1, k).None?
    requires !KeyMatch(e.key, k) && !KeyMatch(t[idx + 1].key, k)
    ensures Lookup(true, t, idx, Some(k), default) == GetResult(|t[idx].value|, Some(t[idx].value))
    ensures Lookup(true, t[idx := e], idx + 1, Some(k), default).written
      == if default.Some? then Some(Bounded(default.value, PropertyValueMax - 1)) else None
  {
    assert t[idx := t[idx]] == t;
    FirstMatchAppended(t, 0, idx - 1, k, t[idx]);
    var after := t[idx := e];
    FirstMatchAppended(t, 0, idx - 1, k, e);
    assert after[idx + 1 := after[idx + 1]] == after;
    FirstMatchAppended(after, 0, idx, k, after[idx + 1]);
  }

  /** The table after property_set as evidently intended: the pair goes into
      the slot after the current index, the first one no lookup reads yet. */
  function Appended(slots: seq<Entry>, index: int, key: string, value: string): (r: seq<Entry>)
    requires -1 <= index && index + 1 < |slots|
    ensures |r| == |slots|
    ensures forall i :: 0 <= i <= index ==> r[i] == slots[i]
    ensures FitsSlot(r[index + 1]) && KeyMatch(r[index + 1].key, key)
  {
    slots[index + 1 := Entry(Bounded(key, PropertyKeyMax), Bounded(value, PropertyValueMax))]
  }

  /** Searching one slot further after that slot was written: the old search
      decides when it finds the key, and the new slot otherwise. */
  lemma {:induction false} FirstMatchAppended(slots: seq<Entry>, from: nat, index: int, key: string, e: Entry)
    requires index + 1 < |slots| && from <= index + 1
    ensures FirstMatch(slots[index + 1 := e], from, index + 1, key)
      == if FirstMatch(slots, from, index, key).Some? then FirstMatch(slots, from, index, key)
         else if KeyMatch(e.key, key) then Some(index + 1) else None
    decreases index + 1 - from
  {
    if from <= index {
      FirstMatchAppended(slots, from + 1, index, key, e);
    } else {
      assert FirstMatch(slots[index + 1 := e], index + 2, index + 1, key) == None;
    }
  }

  /** The intended property_set keeps every lookup: a key set before reads
      as it did, and the key just set reads the new value unless an earlier
      slot holds it. */
  lemma AppendThenGet(slots: seq<Entry>, index: int, key: string, value: string, other: string, default: Option<string>)
    requires -1 <= index && index + 1 < |slots|
    ensures !KeyMatch(key, other) ==>
      Lookup(true, Appended(slots, index, key, value), index + 1, Some(other), default) == Lookup(true, slots, index, Some(other), default)
    ensures var v := Bounded(value, PropertyValueMax);
      Lookup(true, Appended(slots, index, key, value), index + 1, Some(key), default)
        == if FirstMatch(slots, 0, index, key).Some? then Lookup(true, slots, index, Some(key), default) else GetResult(|v|, Some(v))
  {
    var e := Entry(Bounded(key, PropertyKeyMax), Bounded(value, PropertyValueMax));
    FirstMatchAppended(slots, 0, index, other, e);
    FirstMatchAppended(slots, 0, index, key, e);
  }

  /** The state of properties_nonandroid.c: property_map and
      property_map_current_index, with PROPERTY_MAX_ENTRY as capacity. */
  class PropertyMap {
    const capacity: nat
    var slots: array<Entry>
    /** -1 until the first load; then the last slot property_get searches. */
    var index: int

    ghost predicate Valid()
      reads this, slots
    {
      && capacity >= 1 && slots.Length == capacity && -1 <= index < capacity
      && forall i :: 0 <= i < slots.Length ==> FitsSlot(slots[i])
    }

    /** The file fits the table when a load is still to come. */
    ghost predicate FileFits(file: Option<seq<string>>)
      reads this
    {
      index < 0 && file.Some? ==> |file.value| <= capacity
    }

    /** The zero-initialised static table. */
    constructor (capacity: nat)
      requires capacity >= 1
      ensures Valid() && fresh(slots)
      ensures this.capacity == capacity && index == -1
      ensures slots[..] == seq(capacity, _ => Entry("", ""))
    {
      this.capacity := capacity;
      slots := new Entry[capacity](_ => Entry("", ""));
      index := -1;
    }

    /** property_ensure_loaded: loads the file into the table the first time
        it runs; from then on (even after a failure) it reports success. */
    method EnsureLoaded(file: Option<seq<string>>) returns (ok: bool)
      requires Valid() && FileFits(file)
      modifies this, slots
      ensures Valid() && slots == old(slots)
      ensures var o := Loaded(old(slots[..]), old(index), file);
        ok == o.ok && slots[..] == o.slots && index == o.index
    {
      if index >= 0 {
        return true;
      }
      if file.None? {
        index := 0;
        return false;
      }
      ok := StoreFile(file.value);
      index := if ok then |file.value| - 1 else 0;
    }

    /** The loop of property_ensure_loaded: reads the lines in order, line L
        into slot L-1, and stops at the first line that does not scan. */
    method StoreFile(lines: seq<string>) returns (ok: bool)
      requires Valid() && |lines| <= capacity
      modifies slots
      ensures Valid()
      ensures ok <==> FirstBadLine(lines) == |lines|
      ensures slots[..] == StoreLines(old(slots[..]), lines, FirstBadLine(lines))
    {
      var lineNum := 0;
      while lineNum < |lines|
        invariant 0 <= lineNum <= |lines|
        invariant forall i :: 0 <= i < lineNum ==> LineOk(lines[i])
        invariant slots[..] == StoreLines(old(slots[..]), lines, lineNum)
        invariant Valid()
      {
        lineNum := lineNum + 1;
        var stored := StoreLine(lines[lineNum - 1], lineNum - 1);
        if !stored {
          FirstBadLineAt(lines, lineNum - 1);
          return false;
        }
        StoreLinesStep(old(slots[..]), lines, lineNum - 1);
      }
      FirstBadLineAt(lines, |lines|);
      return true;
    }

    /** One pass of that loop: a skipped line leaves the table alone, a line
        that scans is stored in the given slot, any other line stops the load. */
    method StoreLine(line: string, slot: nat) returns (ok: bool)
      requires Valid() && slot < slots.Length
      modifies slots
      ensures Valid()
      ensures ok <==> LineOk(line)
      ensures ok && !IsSkipped(line) ==> slots[..] == old(slots[..])[slot := StoredEntry(line)]
      ensures !ok || IsSkipped(line) ==> slots[..] == old(slots[..])
    {
      if IsSkipped(line) {
        return true;
      }
      var parsed := ParseLine(line);
      if parsed.None? {
        return false;
      }
      var value := TrimNewline(parsed.value.value);
      slots[slot] := Entry(Bounded(parsed.value.key, PropertyKeyMax), Bounded(value, PropertyValueMax));
      return true;
    }

    /** property_get(key, value, default). */
    method Get(key: Option<string>, default: Option<string>, file: Option<seq<string>>) returns (g: GetResult)
      requires Valid() && FileFits(file)
      modifies this, slots
      ensures Valid() && slots == old(slots)
      ensures var o := Loaded(old(slots[..]), old(index), file);
        slots[..] == o.slots && index == o.index && g == Lookup(o.ok, o.slots, o.index, key, default)
    {
      var ok := EnsureLoaded(file);
      if !ok || key.None? {
        return GetResult(-1, None);
      }
      var k := key.value;
      var i := 0;
      while i <= index
        invariant 0 <= i <= index + 1 || (index < 0 && i == 0)
        invariant FirstMatch(slots[..], 0, index, k) == FirstMatch(slots[..], i, index, k)
      {
        if KeyMatch(slots[i].key, k) {
          var v := Bounded(slots[i].value, PropertyValueMax);
          return GetResult(|v|, Some(v));
        }
        i := i + 1;
      }
      if default.Some? {
        var v := Bounded(default.value, PropertyValueMax - 1);
        return GetResult(|v|, Some(v));
      }
      return GetResult(0, None);
    }

    /** property_set: writes the pair into the slot at the current index and
        advances it, or returns -1 with nothing changed when the table is full.
        The table must have been loaded: at index -1 the source writes before
        the array. */
    method Set(key: string, value: string) returns (r: int)
      requires Valid() && index >= 0
      modifies this, slots
      ensures Valid() && slots == old(slots)
      ensures old(index) < capacity - 1 ==>
        (r == 0 && index == old(index) + 1
         && slots[..] == old(slots[..])[old(index) := Entry(Bounded(key, PropertyKeyMax), Bounded(value, PropertyValueMax))])
      ensures old(index) >= capacity - 1 ==> r == -1 && index == old(index) && slots[..] == old(slots[..])
    {
      if index < capacity - 1 {
        slots[index] := Entry(Bounded(key, PropertyKeyMax), Bounded(value, PropertyValueMax));
        index := index + 1;
        return 0;
      }
      return -1;
    }

    /** property_get_bool: the default for a null key, without loading;
        otherwise the value read as one of the true or false words. */
    method GetBool(key: Option<string>, default: int8, file: Option<seq<string>>) returns (r: int8)
      requires Valid() && FileFits(file)
      modifies this, slots
      ensures Valid() && slots == old(slots)
      ensures key.None? ==> r == default && index == old(index) && slots[..] == old(slots[..])
      ensures key.Some? ==> var o := Loaded(old(slots[..]), old(index), file);
        var g := Lookup(o.ok, o.slots, o.index, key, Some(""));
        slots[..] == o.slots && index == o.index && r == BoolFromValue(g.len, BufferText(g), default)
    {
      if key.None? {
        return default;
      }
      var g := Get(key, Some(""), file);
      r := BoolFromValue(g.len, BufferText(g), default);
    }

    /** property_get_imax: the default for a null key, without loading;
        otherwise the value converted and bounded. */
    method GetIMax(key: Option<string>, lower: int, upper: int, default: int, file: Option<seq<string>>) returns (r: int)
      requires Valid() && FileFits(file)
      modifies this, slots
      ensures Valid() && slots == old(slots)
      ensures key.None? ==> r == default && index == old(index) && slots[..] == old(slots[..])
      ensures key.Some? ==> var o := Loaded(old(slots[..]), old(index), file);
        var g := Lookup(o.ok, o.slots, o.index, key, Some(""));
        slots[..] == o.slots && index == o.index && r == ImaxFromValue(g.len, BufferText(g), lower, upper, default)
    {
      if key.None? {
        return default;
      }
      var g := Get(key, Some(""), file);
      r := ImaxFromValue(g.len, BufferText(g), lower, upper, default);
    }

    /** property_get_int64. */
    method GetInt64(key: Option<string>, default: int, file: Option<seq<string>>) returns (r: int)
      requires Valid() && FileFits(file) && Int64Min <= default <= Int64Max
      modifies this, slots
      ensures Valid() && slots == old(slots)
      ensures Int64Min <= r <= Int64Max
      ensures key.None? ==> r == default && index == old(index) && slots[..] == old(slots[..])
      ensures key.Some? ==> var o := Loaded(old(slots[..]), old(index), file);
        var g := Lookup(o.ok, o.slots, o.index, key, Some(""));
        slots[..] == o.slots && index == o.index && r == Int64FromValue(g.len, BufferText(g), default)
    {
      r := GetIMax(key, Int64Min, Int64Max, default, file);
    }

    /** property_get_int32. */
    method GetInt32(key: Option<string>, default: int, file: Option<seq<string>>) returns (r: int)
      requires Valid() && FileFits(file) && Int32Min <= default <= Int32Max
      modifies this, slots
      ensures Valid() && slots == old(slots)
      ensures Int32Min <= r <= Int32Max
      ensures key.None? ==> r == default && index == old(index) && slots[..] == old(slots[..])
      ensures key.Some? ==> var o := Loaded(old(slots[..]), old(index), file);
        var g := Lookup(o.ok, o.slots, o.index, key, Some(""));
        slots[..] == o.slots && index == o.index && r == Int32FromValue(g.len, BufferText(g), default)
    {
      r := GetIMax(key, Int32Min, Int32Max, default, file);
    }
  }
}
