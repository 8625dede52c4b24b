/**
 * The 16-key hexadecimal keypad: one pressed/released flag per key, set and
 * cleared by keyboard scancodes through the fixed SCANCODES table.
 *
 * Scancodes are SDL's numbers for the physical keys. The SDL event queue is
 * modelled as a finite sequence of events; logging a warning for an unknown
 * scancode is not modelled (the keys are left as they are).
 */
module Keypad {
  import opened Types

  const KeyCount: nat := 16

  /** SCANCODES[k] is the scancode of the physical key that stands for key k. */
  const Scancodes: seq<int> := [
    27,  // X -> 0
    30,  // 1 -> 1
    31,  // 2 -> 2
    32,  // 3 -> 3
    20,  // Q -> 4
    26,  // W -> 5
    8,   // E -> 6
    4,   // A -> 7
    22,  // S -> 8
    7,   // D -> 9
    29,  // Z -> A
    6,   // C -> B
    33,  // 4 -> C
    21,  // R -> D
    9,   // F -> E
    25   // V -> F
  ]

  /** The events `wait_for_key` can poll: a key going down or up, or anything else. */
  datatype Event = KeyDown(scancode: int) | KeyUp(scancode: int) | Other

  /** The first key at or after `from` whose scancode is `sc`, scanning the table in order. */
  function FindKey(sc: int, from: nat): (r: Option<nat>)
    requires from <= KeyCount
    ensures r.Some? ==> from <= r.value < KeyCount && Scancodes[r.value] == sc
    ensures r.Some? ==> forall j :: from <= j < r.value ==> Scancodes[j] != sc
    ensures r.None? ==> forall j :: from <= j < KeyCount ==> Scancodes[j] != sc
    decreases KeyCount - from
  {
    if from == KeyCount then None
    else if Scancodes[from] == sc then Some(from)
    else FindKey(sc, from + 1)
  }

  /** The key a scancode stands for, if any. */
  function KeyOf(sc: int): (r: Option<nat>)
    ensures r.Some? ==> r.value < KeyCount && Scancodes[r.value] == sc
    ensures r.None? <==> sc !in Scancodes
  {
    FindKey(sc, 0)
  }

  /** The keys after `register_key(sc)`. */
  function Pressed(keys: seq<bool>, sc: int): seq<bool>
    requires |keys| == KeyCount
  {
    match KeyOf(sc)
    case Some(k) => keys[k := true]
    case None => keys
  }

  /** The keys after `release_key(sc)`. */
  function Released(keys: seq<bool>, sc: int): seq<bool>
    requires |keys| == KeyCount
  {
    match KeyOf(sc)
    case Some(k) => keys[k := false]
    case None => keys
  }

  /** The key `wait_for_key` returns: that of the first key-down event whose scancode is in the table. */
  function FirstKeyPress(events: seq<Event>): (r: Option<nat>)
    ensures r.Some? ==> r.value < KeyCount &&
                        exists i :: 0 <= i < |events| && events[i] == KeyDown(Scancodes[r.value]) &&
                                    forall j :: 0 <= j < i ==> !(events[j].KeyDown? && events[j].scancode in Scancodes)
    ensures r.None? <==> forall i :: 0 <= i < |events| ==> !(events[i].KeyDown? && events[i].scancode in Scancodes)
  {
    if events == [] then None
    else if events[0].KeyDown? && KeyOf(events[0].scancode).Some? then KeyOf(events[0].scancode)
    else
      var r := FirstKeyPress(events[1..]);
      if r.Some? then
        ghost var i :| 0 <= i < |events[1..]| && events[1..][i] == KeyDown(Scancodes[r.value]) &&
                       forall j :: 0 <= j < i ==> !(events[1..][j].KeyDown? && events[1..][j].scancode in Scancodes);
        assert events[i + 1] == KeyDown(Scancodes[r.value]);
        r
      else r
  }

  // ---------------------------------------------------------------------
  // Properties
  // ---------------------------------------------------------------------

  /** The sixteen scancodes are pairwise distinct. */
  lemma ScancodesDistinct()
    ensures |Scancodes| == KeyCount
    ensures forall i, j :: 0 <= i < j < KeyCount ==> Scancodes[i] != Scancodes[j]
  {
  }

  /** Each scancode stands for at most one key: KeyOf(sc) is k exactly when SCANCODES[k] == sc. */
  lemma KeyOfExact(sc: int, k: nat)
    requires k < KeyCount
    ensures KeyOf(sc) == Some(k) <==> Scancodes[k] == sc
  {
    ScancodesDistinct();
  }

  /** `register_key` on a scancode of the table presses its key and no other. */
  lemma PressSetsOnlyItsKey(keys: seq<bool>, k: nat)
    requires |keys| == KeyCount && k < KeyCount
    ensures Pressed(keys, Scancodes[k]) == keys[k := true]
  {
    KeyOfExact(Scancodes[k], k);
  }

  /** `release_key` on a scancode of the table releases its key and no other. */
  lemma ReleaseClearsOnlyItsKey(keys: seq<bool>, k: nat)
    requires |keys| == KeyCount && k < KeyCount
    ensures Released(keys, Scancodes[k]) == keys[k := false]
  {
    KeyOfExact(Scancodes[k], k);
  }

  /** A scancode outside the table changes no key. */
  lemma UnknownScancodeIgnored(keys: seq<bool>, sc: int)
    requires |keys| == KeyCount && sc !in Scancodes
    ensures Pressed(keys, sc) == keys && Released(keys, sc) == keys
  {
  }

  /** Releasing what was just pressed leaves the key released, whatever its state before. */
  lemma PressThenRelease(keys: seq<bool>, sc: int)
    requires |keys| == KeyCount
    ensures Released(Pressed(keys, sc), sc) ==
              match KeyOf(sc) case Some(k) => keys[k := false] case None => keys
  {
  }

  /** Key-up and unrelated events never end the wait; the first valid key-down does. */
  lemma {:induction false} WaitSkipsOtherEvents(skipped: seq<Event>, k: nat, rest: seq<Event>)
    requires k < KeyCount
    requires forall e :: e in skipped ==> !(e.KeyDown? && e.scancode in Scancodes)
    ensures FirstKeyPress(skipped + [KeyDown(Scancodes[k])] + rest) == Some(k)
  {
    if skipped == [] {
      KeyOfExact(Scancodes[k], k);
      assert ([] + [KeyDown(Scancodes[k])] + rest)[0] == KeyDown(Scancodes[k]);
    } else {
      WaitSkipsOtherEvents(skipped[1..], k, rest);
      assert (skipped + [KeyDown(Scancodes[k])] + rest)[1..] == skipped[1..] + [KeyDown(Scancodes[k])] + rest;
    }
  }

  /** `keypad::Keypad`: the key flags, updated in place. */
  class Keypad {
    var keys: array<bool>

    ghost predicate Valid()
      reads this
    {
      keys.Length == KeyCount
    }

    /** `Keypad::init`: allocates the sixteen flags and resets them. */
    constructor Init()
      ensures Valid() && fresh(keys)
      ensures keys[..] == seq(KeyCount, _ => false)
    {
      keys := new bool[KeyCount];
      new;
      Reset();
    }

    /** `Keypad::reset`: releases every key. */
    method Reset()
      requires Valid()
      modifies keys
      ensures keys[..] == seq(KeyCount, _ => false)
    {
      for key := 0 to KeyCount
        invariant forall j :: 0 <= j < key ==> !keys[j]
      {
        keys[key] := false;
      }
    }

    /** `Keypad::register_key`: presses the key whose scancode is `scancode`, if any. */
    method RegisterKey(scancode: int)
      requires Valid()
      modifies keys
      ensures keys[..] == Pressed(old(keys[..]), scancode)
    {
      for key := 0 to KeyCount
        invariant forall j :: 0 <= j < key ==> Scancodes[j] != scancode
        invariant keys[..] == old(keys[..])
      {
        if scancode == Scancodes[key] {
          keys[key] := true;
          return;
        }
      }
    }

    /** `Keypad::release_key`: releases the key whose scancode is `scancode`, if any. */
    method ReleaseKey(scancode: int)
      requires Valid()
      modifies keys
      ensures keys[..] == Released(old(keys[..]), scancode)
    {
      for key := 0 to KeyCount
        invariant forall j :: 0 <= j < key ==> Scancodes[j] != scancode
        invariant keys[..] == old(keys[..])
      {
        if scancode == Scancodes[key] {
          keys[key] := false;
          return;
        }
      }
    }

    /** `Keypad::is_pressed`: the flag of key `key`; a `uint8_t` past 15 throws `std::out_of_range`. */
    method IsPressed(key: nat) returns (r: Result<bool>)
      requires Valid() && key < 0x100
      ensures key < KeyCount ==> r == Ok(keys[key])
      ensures key >= KeyCount ==> r == Err(OutOfRange)
    {
      if key < keys.Length {
        r := Ok(keys[key]);
      } else {
        r := Err(OutOfRange);
      }
    }

    /**
     * `Keypad::wait_for_key`: polls events until a key-down whose scancode is
     * in the table, and returns its key. `None` stands for an event stream
     * that ends first, where the C++ loop would go on polling.
     */
    method WaitForKey(events: seq<Event>) returns (r: Option<nat>)
      ensures r == FirstKeyPress(events)
      ensures r.Some? ==> r.value < KeyCount
    {
      for i := 0 to |events|
        invariant FirstKeyPress(events) == FirstKeyPress(events[i..])
      {
        var e := events[i];
        assert events[i..][1..] == events[i + 1..];
        if e.KeyDown? {
          for key := 0 to KeyCount
            invariant forall j :: 0 <= j < key ==> Scancodes[j] != e.scancode
          {
            if e.scancode == Scancodes[key] {
              KeyOfExact(e.scancode, key);
              return Some(key);
            }
          }
        }
      }
      return None;
    }
  }
}
