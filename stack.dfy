/**
 * The call stack: a vector of STACK_SIZE = 16 return addresses and a `top`
 * cursor that is -1 when the stack is empty.
 *
 * `push` guards with `top + 1 > STACK_SIZE`, which lets a push at top == 15
 * through; the write `s->at(++top)` then increments `top` to 16 before the
 * bounds check of `at` throws `std::out_of_range`. The model keeps that
 * behaviour, state after the exception included.
 */
module Stack {
  import opened Types

  const StackSize: nat := 16

  /** The slots of the vector and the cursor. */
  datatype State = State(slots: seq<Addr>, top: int)

  /** The shapes `init`, `push` and `pop` can leave the stack in. */
  predicate WellFormed(st: State)
  {
    |st.slots| == StackSize && -1 <= st.top <= StackSize
  }

  /** The entries pushed and not yet popped, bottom first. */
  function Live(st: State): seq<Addr>
    requires WellFormed(st)
  {
    st.slots[..if st.top < StackSize then st.top + 1 else StackSize]
  }

  /** `Stack::init`: sixteen zeroed slots and no entry. */
  const Empty: State := State(seq(StackSize, _ => 0), -1)

  /** `Stack::push` as written. */
  function PushStep(st: State, data: Addr): (r: (Result<()>, State))
    requires WellFormed(st)
    ensures WellFormed(r.1)
  {
    if st.top + 1 > StackSize then (Err(RuntimeError("stack overflow")), st)
    else
      var t := st.top + 1;  // `++top` happens before `at` checks its argument
      if t < |st.slots| then (Ok(()), State(st.slots[t := data], t))
      else (Err(OutOfRange), State(st.slots, t))
  }

  /** `Stack::pop` as written: `top--` happens before `at` checks its argument. */
  function PopStep(st: State): (r: (Result<Addr>, State))
    requires WellFormed(st)
    ensures WellFormed(r.1)
  {
    if st.top < 0 then (Err(RuntimeError("empty stack")), st)
    else if st.top < |st.slots| then (Ok(st.slots[st.top]), State(st.slots, st.top - 1))
    else (Err(OutOfRange), State(st.slots, st.top - 1))
  }

  /** `push` with the guard the overflow message implies, `top + 1 >= STACK_SIZE`. */
  function PushStepIntended(st: State, data: Addr): (r: (Result<()>, State))
    requires WellFormed(st)
    ensures WellFormed(r.1) && r.0 != Err(OutOfRange)
    ensures r.0.Ok? <==> st.top + 1 < StackSize
  {
    if st.top + 1 >= StackSize then (Err(RuntimeError("stack overflow")), st)
    else (Ok(()), State(st.slots[st.top + 1 := data], st.top + 1))
  }

  /** Pushes `xs` in order, stopping at the first exception. */
  function PushAll(st: State, xs: seq<Addr>): (r: Result<State>)
    requires WellFormed(st)
    ensures r.Ok? ==> WellFormed(r.value)
    decreases |xs|
  {
    if xs == [] then Ok(st)
    else
      match PushAll(st, xs[..|xs| - 1])
      case Err(e) => Err(e)
      case Ok(mid) =>
        var (r, next) := PushStep(mid, xs[|xs| - 1]);
        if r.Err? then Err(r.error) else Ok(next)
  }

  /** Pops `k` times, collecting the popped addresses in pop order, stopping at the first exception. */
  function PopAll(st: State, k: nat): (r: Result<(seq<Addr>, State)>)
    requires WellFormed(st)
    ensures r.Ok? ==> WellFormed(r.value.1)
    decreases k
  {
    if k == 0 then Ok(([], st))
    else
      var (r, next) := PopStep(st);
      if r.Err? then Err(r.error)
      else
        match PopAll(next, k - 1)
        case Err(e) => Err(e)
        case Ok((rest, last)) => Ok(([r.value] + rest, last))
  }

  function Reverse(xs: seq<Addr>): seq<Addr>
  {
    if xs == [] then [] else [xs[|xs| - 1]] + Reverse(xs[..|xs| - 1])
  }

  // ---------------------------------------------------------------------
  // Properties
  // ---------------------------------------------------------------------

  /**
   * A push that succeeds appends its address to the live entries; a pop that
   * succeeds returns the topmost live entry and removes it. Each succeeds
   * exactly when `top` is in the range where `at` accepts the slot.
   */
  lemma StepsOnLive(st: State, data: Addr)
    requires WellFormed(st)
    ensures PushStep(st, data).0.Ok? <==> st.top + 1 < StackSize
    ensures PushStep(st, data).0.Ok? ==> Live(PushStep(st, data).1) == Live(st) + [data]
    ensures PopStep(st).0.Ok? <==> 0 <= st.top < StackSize
    ensures PopStep(st).0.Ok? ==>
              Live(st) != [] && PopStep(st).0.value == Live(st)[|Live(st)| - 1] &&
              Live(PopStep(st).1) == Live(st)[..|Live(st)| - 1]
  {
  }

  /** After `init` the stack has sixteen slots and no entry, and a pop reports "empty stack". */
  lemma EmptyAfterInit()
    ensures WellFormed(Empty) && Empty.top == -1 && Live(Empty) == []
    ensures PopStep(Empty) == (Err(RuntimeError("empty stack")), Empty)
  {
  }

  /** A pop with `top < 0` reports "empty stack" and changes nothing. */
  lemma PopEmptyFails(st: State)
    requires WellFormed(st) && st.top < 0
    ensures PopStep(st) == (Err(RuntimeError("empty stack")), st)
  {
  }

  /** A push below capacity followed by a pop returns the pushed address and restores the entries and `top`. */
  lemma PushThenPop(st: State, data: Addr)
    requires WellFormed(st) && st.top + 1 < StackSize
    ensures PushStep(st, data).0 == Ok(())
    ensures var (r, after) := PopStep(PushStep(st, data).1);
            r == Ok(data) && after.top == st.top && Live(after) == Live(st)
  {
  }

  /** Pushing `xs` onto a stack with room for them succeeds and appends them to the live entries. */
  lemma {:induction false} PushAllAppends(st: State, xs: seq<Addr>)
    requires WellFormed(st) && st.top + |xs| < StackSize
    ensures PushAll(st, xs).Ok?
    ensures var after := PushAll(st, xs).value;
            WellFormed(after) && after.top == st.top + |xs| && Live(after) == Live(st) + xs
  {
    if xs != [] {
      var init := xs[..|xs| - 1];
      PushAllAppends(st, init);
      var mid := PushAll(st, init).value;
      assert Live(PushStep(mid, xs[|xs| - 1]).1) == Live(mid) + [xs[|xs| - 1]];
      assert init + [xs[|xs| - 1]] == xs;
    }
  }

  /** Popping `k` entries yields the top `k` live entries, topmost first, and lowers `top` by `k`. */
  lemma {:induction false} PopAllTakesTop(st: State, k: nat)
    requires WellFormed(st) && k <= st.top + 1 && st.top < StackSize
    ensures PopAll(st, k) == Ok((Reverse(st.slots[st.top + 1 - k..st.top + 1]), State(st.slots, st.top - k)))
    decreases k
  {
    if k > 0 {
      var next := State(st.slots, st.top - 1);
      assert PopStep(st) == (Ok(st.slots[st.top]), next);
      PopAllTakesTop(next, k - 1);
      var window := st.slots[st.top + 1 - k..st.top + 1];
      assert window[..k - 1] == st.slots[st.top + 1 - k..st.top];
    }
  }

  /** LIFO: pushing up to the capacity and popping as many times returns the addresses in reverse order. */
  lemma PushesPopInReverse(st: State, xs: seq<Addr>)
    requires WellFormed(st) && st.top + |xs| < StackSize
    ensures PushAll(st, xs).Ok?
    ensures PopAll(PushAll(st, xs).value, |xs|).Ok?
    ensures var (popped, after) := PopAll(PushAll(st, xs).value, |xs|).value;
            popped == Reverse(xs) && after.top == st.top && Live(after) == Live(st)
  {
    PushAllAppends(st, xs);
    var full := PushAll(st, xs).value;
    PopAllTakesTop(full, |xs|);
    assert full.slots[full.top + 1 - |xs|..full.top + 1] == (Live(st) + xs)[st.top + 1..];
    assert full.slots[..st.top + 1] == (Live(st) + xs)[..st.top + 1];
  }

  /** Sixteen pushes onto the empty stack all succeed. */
  lemma SixteenPushesFit(xs: seq<Addr>)
    requires |xs| == StackSize
    ensures PushAll(Empty, xs).Ok? && PushAll(Empty, xs).value.top == StackSize - 1
  {
    PushAllAppends(Empty, xs);
  }

  /**
   * The guard `top + 1 > STACK_SIZE` does not fire at top == 15: the 17th push
   * fails in `at(16)` with `std::out_of_range`, leaving `top` at 16.
   */
  lemma SeventeenthPushOutOfRange(st: State, data: Addr)
    requires WellFormed(st) && st.top == StackSize - 1
    ensures PushStep(st, data) == (Err(OutOfRange), State(st.slots, StackSize))
  {
  }

  /** The guard fires only once `top` has reached 16, which only a failed 17th push leaves behind. */
  lemma OverflowGuardFiresOnlyAtSixteen(st: State, data: Addr)
    requires WellFormed(st)
    ensures PushStep(st, data).0 == Err(RuntimeError("stack overflow")) <==> st.top == StackSize
  {
  }

  /** After a failed 17th push, a pop also throws `std::out_of_range`, and leaves `top` at 15. */
  lemma PopAfterFailedPush(st: State, data: Addr)
    requires WellFormed(st) && st.top == StackSize - 1
    ensures PopStep(PushStep(st, data).1) == (Err(OutOfRange), st)
  {
  }

  /**
   * With the intended guard, the 17th push reports "stack overflow" and leaves
   * the stack as it was; below capacity it agrees with the code as written.
   */
  lemma IntendedPushReportsOverflow(st: State, data: Addr)
    requires WellFormed(st)
    ensures var (r, after) := PushStepIntended(st, data);
            WellFormed(after) && r != Err(OutOfRange) &&
            (st.top + 1 >= StackSize <==> r == Err(RuntimeError("stack overflow")) && after == st)
    ensures st.top + 1 < StackSize ==> PushStepIntended(st, data) == PushStep(st, data)
  {
  }

  /** `stack::Stack`: the slot vector and the cursor, updated in place. */
  class Stack {
    var s: array<Addr>
    var top: int

    ghost predicate Valid()
      reads this
    {
      s.Length == StackSize && -1 <= top <= StackSize
    }

    /** The abstract state the object holds. */
    ghost function View(): (st: State)
      reads this, s
      requires Valid()
      ensures WellFormed(st)
    {
      State(s[..], top)
    }

    /** `Stack::init`: allocates sixteen zeroed slots and sets `top` to -1. */
    constructor Init()
      ensures Valid() && fresh(s)
      ensures View() == Empty
    {
      s := new Addr[StackSize](_ => 0);
      top := -1;
    }

    /** `Stack::push`. */
    method Push(data: Addr) returns (r: Result<()>)
      requires Valid()
      modifies this, s
      ensures Valid() && s == old(s)
      ensures (r, View()) == PushStep(old(View()), data)
    {
      if top + 1 > StackSize {
        return Err(RuntimeError("stack overflow"));
      }
      top := top + 1;
      if top >= s.Length {
        return Err(OutOfRange);
      }
      s[top] := data;
      r := Ok(());
    }

    /** `Stack::pop`. */
    method Pop() returns (r: Result<Addr>)
      requires Valid()
      modifies this
      ensures Valid() && s == old(s)
      ensures (r, View()) == PopStep(old(View()))
    {
      if top < 0 {
        return Err(RuntimeError("empty stack"));
      }
      var t := top;
      top := top - 1;
      if t >= s.Length {
        return Err(OutOfRange);
      }
      r := Ok(s[t]);
    }
  }
}
