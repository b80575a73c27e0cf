/**
 * The contents of a request's header table as a value: the sequence of the
 * slots in use (`headers[0 .. headersused)`), each either a live key/value
 * pair or a tombstone left behind by a removal.  These functions are the
 * specification that the methods of `ProxyParse.ParsedRequest` are proved
 * against.
 */
module HeaderSlots {
  import opened Wrappers
  import opened CStrings

  /** One `struct ParsedHeader`; a NULL key is a tombstone. */
  datatype Slot = Tombstone | Live(key: string, value: string)

  predicate HasKey(slot: Slot, key: string) {
    slot.Live? && slot.key == key
  }

  /** No two live slots carry the same key. */
  predicate UniqueLive(s: seq<Slot>) {
    forall i, j :: 0 <= i < j < |s| && s[i].Live? && s[j].Live? ==> s[i].key != s[j].key
  }

  /** The index of the first live slot with this key (what ParsedHeader_get finds). */
  function FirstLive(s: seq<Slot>, key: string): (r: Option<nat>)
    ensures r.Some? ==> r.value < |s| && HasKey(s[r.value], key)
    ensures r.Some? ==> forall j :: 0 <= j < r.value ==> !HasKey(s[j], key)
    ensures r.None? ==> forall j :: 0 <= j < |s| ==> !HasKey(s[j], key)
  {
    if s == [] then None
    else if HasKey(s[0], key) then Some(0)
    else
      match FirstLive(s[1..], key)
      case None => None
      case Some(i) => Some(i + 1)
  }

  /** ParsedHeader_remove: tombstone the first live slot with the key, if any. */
  function RemoveSlot(s: seq<Slot>, key: string): (r: seq<Slot>)
    ensures |r| == |s|
  {
    match FirstLive(s, key)
    case None => s
    case Some(i) => s[i := Tombstone]
  }

  /** ParsedHeader_set: remove the key, then append a live slot at the end. */
  function SetSlot(s: seq<Slot>, key: string, value: string): (r: seq<Slot>)
    ensures |r| == |s| + 1
  {
    RemoveSlot(s, key) + [Live(key, value)]
  }

  /** A sequence of ParsedHeader_set calls, in order. */
  function SetAll(s: seq<Slot>, fields: seq<(string, string)>): (r: seq<Slot>)
    ensures |r| == |s| + |fields|
    decreases |fields|
  {
    if fields == [] then s
    else SetAll(SetSlot(s, fields[0].0, fields[0].1), fields[1..])
  }

  /** The bytes ParsedHeader_printHeaders writes for one slot. */
  function Line(slot: Slot): string {
    if slot.Live? then slot.key + ": " + slot.value + "\r\n" else ""
  }

  /** ParsedHeader_lineLen. */
  function LineLen(slot: Slot): (n: nat)
    ensures n == |Line(slot)|
  {
    if slot.Live? then |slot.key| + |slot.value| + 4 else 0
  }

  /** The lines of all slots, in slot order. */
  function Lines(s: seq<Slot>): string {
    if s == [] then "" else Lines(s[..|s| - 1]) + Line(s[|s| - 1])
  }

  /** The sum that ParsedHeader_headersLen accumulates, before its final 2. */
  function SlotsLen(s: seq<Slot>): (n: nat)
    ensures n == |Lines(s)|
  {
    if s == [] then 0 else SlotsLen(s[..|s| - 1]) + LineLen(s[|s| - 1])
  }

  /** The header block: every live line, then the empty line. */
  function HeaderBlock(s: seq<Slot>): string {
    Lines(s) + "\r\n"
  }

  // ---------------------------------------------------------------------
  // Properties of the header table

  /** Removing a key that has no live slot changes nothing; otherwise exactly its first slot dies. */
  lemma RemoveSlotEffect(s: seq<Slot>, key: string)
    ensures FirstLive(s, key).None? ==> RemoveSlot(s, key) == s
    ensures FirstLive(s, key).Some? ==>
      var i := FirstLive(s, key).value;
      && RemoveSlot(s, key)[i] == Tombstone
      && forall j :: 0 <= j < |s| && j != i ==> RemoveSlot(s, key)[j] == s[j]
  {
  }

  /** With unique keys, after a removal no live slot has the key. */
  lemma RemoveThenAbsent(s: seq<Slot>, key: string)
    requires UniqueLive(s)
    ensures UniqueLive(RemoveSlot(s, key))
    ensures FirstLive(RemoveSlot(s, key), key) == None
  {
    var r := RemoveSlot(s, key);
    match FirstLive(s, key)
    case None =>
    case Some(i) =>
      forall j | 0 <= j < |r|
        ensures !HasKey(r[j], key)
      {
        if j != i {
          assert r[j] == s[j];
        }
      }
  }

  /**
   * After set(key, value): the key is found in the new last slot, with the new
   * value; no other live slot has the key; every other live slot is untouched;
   * and keys stay unique.
   */
  lemma SetThenGet(s: seq<Slot>, key: string, value: string)
    requires UniqueLive(s)
    ensures FirstLive(SetSlot(s, key, value), key) == Some(|s|)
    ensures SetSlot(s, key, value)[|s|] == Live(key, value)
    ensures forall j :: 0 <= j < |s| && !HasKey(s[j], key) ==> SetSlot(s, key, value)[j] == s[j]
    ensures UniqueLive(SetSlot(s, key, value))
  {
    var r := SetSlot(s, key, value);
    var m := RemoveSlot(s, key);
    RemoveThenAbsent(s, key);
    RemoveSlotEffect(s, key);
    assert r == m + [Live(key, value)];
    forall j | 0 <= j < |s|
      ensures !HasKey(r[j], key)
    {
      assert r[j] == m[j];
    }
    FirstLiveAppend(m, key, value);
    forall i, j | 0 <= i < j < |r| && r[i].Live? && r[j].Live?
      ensures r[i].key != r[j].key
    {
      if j == |s| {
        assert r[i] == m[i];
        assert !HasKey(m[i], key);
      } else {
        assert r[i] == m[i] && r[j] == m[j];
      }
    }
  }

  lemma FirstLiveAppend(m: seq<Slot>, key: string, value: string)
    requires FirstLive(m, key) == None
    ensures FirstLive(m + [Live(key, value)], key) == Some(|m|)
  {
    var r := m + [Live(key, value)];
    assert forall j :: 0 <= j < |m| ==> r[j] == m[j];
    FirstLiveAt(r, key, |m|);
  }

  /** The first live slot with the key is the one before which no slot has it. */
  lemma {:induction false} FirstLiveAt(s: seq<Slot>, key: string, i: nat)
    requires i < |s| && HasKey(s[i], key)
    requires forall j :: 0 <= j < i ==> !HasKey(s[j], key)
    ensures FirstLive(s, key) == Some(i)
    decreases i
  {
    if i > 0 {
      assert !HasKey(s[0], key);
      assert forall j :: 0 <= j < i - 1 ==> s[1..][j] == s[j + 1];
      FirstLiveAt(s[1..], key, i - 1);
    }
  }

  /** Setting one key leaves where another key is found, and that slot, as they were. */
  lemma SetKeepsOtherKey(s: seq<Slot>, key: string, value: string, other: string)
    requires key != other
    ensures FirstLive(SetSlot(s, key, value), other) == FirstLive(s, other)
    ensures FirstLive(s, other).Some? ==> SetSlot(s, key, value)[FirstLive(s, other).value] == s[FirstLive(s, other).value]
  {
    var r := SetSlot(s, key, value);
    RemoveSlotEffect(s, key);
    assert forall j :: 0 <= j < |s| ==> r[j] == RemoveSlot(s, key)[j];
    FirstLiveAgree(s, r, other);
  }

  /** Two tables whose slots agree on holding `key`, the longer one without it past the shorter, find it at the same place. */
  lemma {:induction false} FirstLiveAgree(a: seq<Slot>, b: seq<Slot>, key: string)
    requires |a| <= |b|
    requires forall j :: 0 <= j < |a| ==> (HasKey(a[j], key) <==> HasKey(b[j], key))
    requires forall j :: |a| <= j < |b| ==> !HasKey(b[j], key)
    ensures FirstLive(a, key) == FirstLive(b, key)
    decreases |a|
  {
    if a != [] && !HasKey(a[0], key) {
      FirstLiveAgree(a[1..], b[1..], key);
    }
  }

  /** Setting a key after removing it makes it visible again, in the last slot. */
  lemma SetAfterRemove(s: seq<Slot>, key: string, value: string)
    requires UniqueLive(s)
    ensures FirstLive(RemoveSlot(s, key), key) == None
    ensures FirstLive(SetSlot(RemoveSlot(s, key), key, value), key) == Some(|s|)
  {
    RemoveThenAbsent(s, key);
    SetThenGet(RemoveSlot(s, key), key, value);
  }

  /** A sequence of sets keeps keys unique. */
  lemma {:induction false} SetAllUnique(s: seq<Slot>, fields: seq<(string, string)>)
    requires UniqueLive(s)
    ensures UniqueLive(SetAll(s, fields))
    decreases |fields|
  {
    if fields != [] {
      SetThenGet(s, fields[0].0, fields[0].1);
      SetAllUnique(SetSlot(s, fields[0].0, fields[0].1), fields[1..]);
    }
  }

  /** One more set after a sequence of sets. */
  lemma {:induction false} SetAllSnoc(s: seq<Slot>, fields: seq<(string, string)>, f: (string, string))
    ensures SetAll(s, fields + [f]) == SetSlot(SetAll(s, fields), f.0, f.1)
    decreases |fields|
  {
    if fields == [] {
      assert [] + [f] == [f];
    } else {
      assert (fields + [f])[1..] == fields[1..] + [f];
      SetAllSnoc(SetSlot(s, fields[0].0, fields[0].1), fields[1..], f);
    }
  }

  /** A one-slot table prints that slot's line. */
  lemma LinesSingle(x: Slot)
    ensures Lines([x]) == Line(x)
  {
    assert [x][..0] == [];
  }

  /** The lines of a table are those of all but its last slot, then the last slot's. */
  lemma LinesSnoc(s: seq<Slot>, p: seq<Slot>, last: Slot)
    requires s != [] && s[..|s| - 1] == p && s[|s| - 1] == last
    ensures Lines(s) == Lines(p) + Line(last)
  {
  }

  /** Tombstones print nothing; the printed block is the live slots' lines in slot order. */
  lemma {:induction false} LinesAppend(s: seq<Slot>, t: seq<Slot>)
    ensures Lines(s + t) == Lines(s) + Lines(t)
    decreases |t|
  {
    if t == [] {
      assert s + t == s;
    } else {
      var u, last := t[..|t| - 1], t[|t| - 1];
      assert (s + t)[..|s + t| - 1] == s + u;
      LinesSnoc(s + t, s + u, last);
      LinesSnoc(t, u, last);
      LinesAppend(s, u);
      ConcatAssoc(Lines(s), Lines(u), Line(last));
    }
  }

  /** The lines of the first `i` slots, and then those of slot `i`. */
  lemma LinesPrefix(s: seq<Slot>, i: nat)
    requires i < |s|
    ensures Lines(s[..i + 1]) == Lines(s[..i]) + Line(s[i])
  {
    var p := s[..i + 1];
    assert p[..|p| - 1] == s[..i];
  }

  /** The lines of a prefix are no longer than those of the whole. */
  lemma LinesPrefixShorter(s: seq<Slot>, i: nat)
    requires i <= |s|
    ensures |Lines(s[..i])| <= |Lines(s)|
  {
    LinesAppend(s[..i], s[i..]);
    assert s[..i] + s[i..] == s;
  }

  /** The live lines of a sequence of fresh keys, each set once into an empty table. */
  function FieldLines(fields: seq<(string, string)>): string {
    if fields == [] then ""
    else fields[0].0 + ": " + fields[0].1 + "\r\n" + FieldLines(fields[1..])
  }

  /** The keys of a field list are pairwise different. */
  predicate DistinctKeys(fields: seq<(string, string)>) {
    forall i, j :: 0 <= i < j < |fields| ==> fields[i].0 != fields[j].0
  }

  /** The slots an empty table holds after setting distinct keys in order. */
  function LiveSlots(fields: seq<(string, string)>): (r: seq<Slot>)
    ensures |r| == |fields|
  {
    if fields == [] then [] else [Live(fields[0].0, fields[0].1)] + LiveSlots(fields[1..])
  }

  lemma {:induction false} LinesOfLiveSlots(fields: seq<(string, string)>)
    ensures Lines(LiveSlots(fields)) == FieldLines(fields)
  {
    if fields != [] {
      var x := Live(fields[0].0, fields[0].1);
      LinesOfLiveSlots(fields[1..]);
      LinesAppend([x], LiveSlots(fields[1..]));
      LinesSingle(x);
    }
  }

  /**
   * Setting distinct keys one after another into a table holding other keys
   * appends one live slot per key and tombstones nothing.
   */
  lemma {:induction false} SetAllFresh(s: seq<Slot>, fields: seq<(string, string)>)
    requires DistinctKeys(fields)
    requires forall i, j :: 0 <= i < |s| && 0 <= j < |fields| ==> !HasKey(s[i], fields[j].0)
    ensures SetAll(s, fields) == s + LiveSlots(fields)
    decreases |fields|
  {
    if fields != [] {
      var s' := s + [Live(fields[0].0, fields[0].1)];
      FreshFirstKey(s, fields);
      SetAllFresh(s', fields[1..]);
      ConcatAssoc(s, [Live(fields[0].0, fields[0].1)], LiveSlots(fields[1..]));
    }
  }

  /** Setting the first of the fresh keys appends it, and the other keys stay fresh. */
  lemma FreshFirstKey(s: seq<Slot>, fields: seq<(string, string)>)
    requires fields != [] && DistinctKeys(fields)
    requires forall i, j :: 0 <= i < |s| && 0 <= j < |fields| ==> !HasKey(s[i], fields[j].0)
    ensures SetSlot(s, fields[0].0, fields[0].1) == s + [Live(fields[0].0, fields[0].1)]
    ensures DistinctKeys(fields[1..])
    ensures forall i, j :: 0 <= i < |s| + 1 && 0 <= j < |fields[1..]| ==>
      !HasKey((s + [Live(fields[0].0, fields[0].1)])[i], fields[1..][j].0)
  {
    var k, v := fields[0].0, fields[0].1;
    assert FirstLive(s, k) == None by {
      assert forall i :: 0 <= i < |s| ==> !HasKey(s[i], k);
    }
    var s' := s + [Live(k, v)];
    forall i, j | 0 <= i < |s'| && 0 <= j < |fields[1..]|
      ensures !HasKey(s'[i], fields[1..][j].0)
    {
      if i == |s| {
        assert fields[0].0 != fields[j + 1].0;
      } else {
        assert s'[i] == s[i];
      }
    }
  }
}
