/**
 * The machine: the components, the sixteen V registers, the two timers, the
 * program counter PC and the index register I, with the start-up sequence
 * (`Application` constructor, then `init`) and the timer thread.
 *
 * Files are modelled by what they yield: the ROM by whether it opens and by
 * its bytes, the font file by whether it opens and by its lines. The timer
 * thread's stop flag is modelled by the number of loop iterations it runs.
 */
module Application {
  import opened Types
  import Font
  import Memory
  import Stack

  const RegisterCount: nat := 16

  /** The glyph table start-up settles on, or the exception `Font(filename)` throws. */
  function StartupFont(fontArg: string, fontOpens: bool, fontLines: seq<string>): Result<seq<byte>>
  {
    if fontArg == "nofont" || !fontOpens then Ok(Font.DefaultFont)
    else Font.FontFromLines(fontLines)
  }

  /** One iteration of `timers_thread` on one timer: decrement unless already zero. */
  function TickTimer(t: nat): (r: nat)
    ensures r <= t && (r == t <==> t == 0)
  {
    if t != 0 then t - 1 else 0
  }

  /** A timer after `n` iterations of `timers_thread`. */
  function Ticks(t: nat, n: nat): nat
  {
    if n == 0 then t else TickTimer(Ticks(t, n - 1))
  }

  // ---------------------------------------------------------------------
  // Properties
  // ---------------------------------------------------------------------

  /** A tick lowers a timer by one exactly when it is non-zero, and never below zero. */
  lemma TickDecrementsNonZero(t: nat)
    ensures TickTimer(t) == t - 1 <==> t != 0
    ensures TickTimer(t) == 0 <==> t <= 1
    ensures TickTimer(t) <= t
  {
  }

  /** After `n` ticks a timer set to `t` reads `t - n`, saturating at zero. */
  lemma {:induction false} TicksSaturate(t: nat, n: nat)
    ensures Ticks(t, n) == if n <= t then t - n else 0
  {
    if n > 0 {
      TicksSaturate(t, n - 1);
    }
  }

  /** A timer set to N reaches zero after N ticks and stays there under further ticks. */
  lemma TimerDrainsAndStays(t: nat, extra: nat)
    ensures Ticks(t, t) == 0
    ensures Ticks(t, t + extra) == 0
  {
    TicksSaturate(t, t);
    TicksSaturate(t, t + extra);
  }

  /**
   * With "nofont" or a font file that cannot be opened, the default table is
   * used. Otherwise the file decides: its bytes when exactly FONT_DATA_SIZE
   * lines match, the default table when fewer do, `std::out_of_range` when more do.
   */
  lemma StartupFontCases(fontArg: string, fontOpens: bool, fontLines: seq<string>)
    ensures fontArg == "nofont" || !fontOpens ==> StartupFont(fontArg, fontOpens, fontLines) == Ok(Font.DefaultFont)
    ensures StartupFont(fontArg, fontOpens, fontLines).Err? <==>
              fontArg != "nofont" && fontOpens && Font.MatchingLines(fontLines) > Font.FontDataSize
    ensures fontArg != "nofont" && fontOpens && Font.MatchingLines(fontLines) < Font.FontDataSize ==>
              StartupFont(fontArg, fontOpens, fontLines) == Ok(Font.DefaultFont)
    ensures StartupFont(fontArg, fontOpens, fontLines).Ok? ==>
              |StartupFont(fontArg, fontOpens, fontLines).value| == Font.FontDataSize
  {
    Font.FontFromLinesCases(fontLines);
  }

  /** `application::Application`. */
  class Application {
    var font: Font.Font
    var ram: Memory.Memory
    var stack: Stack.Stack
    var V: array<byte>
    var delayTimer: nat
    var soundTimer: nat
    var pc: Addr
    var I: Addr
    /** The ROM named by `rom_file_name`, as the bytes the file holds. */
    var rom: seq<byte>

    ghost predicate Valid()
      reads this, font
    {
      font.Valid() && V.Length == RegisterCount && |rom| <= Memory.RomCapacity
    }

    /**
     * The part of the constructor after its file checks: takes the font,
     * creates the memory, the registers and the stack. The timers, PC and I
     * are left for `init` to set.
     */
    constructor Make(font: Font.Font, rom: seq<byte>)
      requires font.Valid() && |rom| <= Memory.RomCapacity
      ensures Valid() && this.font == font && this.rom == rom
      ensures fresh(V) && V[..] == seq(RegisterCount, _ => 0)
    {
      this.font := font;
      this.rom := rom;
      ram := new Memory.Memory.Init();
      V := new byte[RegisterCount](_ => 0);
      stack := new Stack.Stack.Init();
      delayTimer := 0;
      soundTimer := 0;
      pc := 0;
      I := 0;
    }

    /**
     * `Application(clock, rom, font)`: throws "unable to load rom" when the ROM
     * cannot be opened; falls back to the default font for "nofont" or a font
     * file that cannot be opened; otherwise parses the font file, whose
     * exception propagates.
     */
    static method Create(romOpens: bool, rom: seq<byte>, fontArg: string, fontOpens: bool, fontLines: seq<string>)
      returns (r: Result<Application>)
      requires |rom| <= Memory.RomCapacity
      ensures !romOpens ==> r == Err(RuntimeError("unable to load rom"))
      ensures romOpens ==> (r.Err? <==> StartupFont(fontArg, fontOpens, fontLines).Err?)
      ensures romOpens && r.Err? ==> r.error == OutOfRange
      ensures r.Ok? ==> fresh(r.value) && r.value.Valid() && r.value.rom == rom &&
                        r.value.font.Data() == StartupFont(fontArg, fontOpens, fontLines).value
    {
      if !romOpens {
        return Err(RuntimeError("unable to load rom"));
      }
      var useFile := fontArg != "nofont" && fontOpens;
      var font: Font.Font;
      if useFile {
        var parsed := Font.Font.FromLines(fontLines);
        if parsed.Err? {
          return Err(parsed.error);
        }
        font := parsed.value;
      } else {
        font := new Font.Font.Default();
      }
      var app := new Application.Make(font, rom);
      r := Ok(app);
    }

    /**
     * `Application::init`: allocates memory, loads the font and the ROM (whose
     * exception stops `init` there), then resets the stack, zeroes the
     * registers and the timers, points PC at ROM_START_AT and zeroes I.
     */
    method Init() returns (r: Result<()>)
      requires Valid()
      modifies this, V
      ensures Valid() && font == old(font) && rom == old(rom) && V == old(V)
      ensures fresh(ram) && ram.Valid()
      ensures ram.Contents() ==
                Memory.WithProgram(Memory.WithFont(Memory.Zeroed, font.Data()), rom)
      ensures r.Err? <==> |rom| == 0
      ensures r.Err? ==> r.error == RuntimeError("failed to load rom")
      ensures r.Ok? ==> fresh(stack) && stack.Valid() && stack.View() == Stack.Empty
      ensures r.Ok? ==> V[..] == seq(RegisterCount, _ => 0)
      ensures r.Ok? ==> delayTimer == 0 && soundTimer == 0 && pc == Memory.RomStartAt && I == 0
    {
      var mem := new Memory.Memory.Init();
      mem.LoadFont(font);
      r := mem.LoadProgram(rom);
      ram := mem;
      if r.Ok? {
        stack := new Stack.Stack.Init();
        ResetRegisters();
      }
    }

    /**
     * The register part of `init`: the `std::fill` of V with zero, both timers
     * zero, PC at ROM_START_AT and I zero; the components are left alone.
     */
    method ResetRegisters()
      requires V.Length == RegisterCount
      modifies this, V
      ensures V[..] == seq(RegisterCount, _ => 0)
      ensures delayTimer == 0 && soundTimer == 0 && pc == Memory.RomStartAt && I == 0
      ensures font == old(font) && ram == old(ram) && stack == old(stack) && V == old(V) && rom == old(rom)
    {
      var regs := V;
      for k := 0 to regs.Length
        modifies regs
        invariant forall j :: 0 <= j < k ==> regs[j] == 0
      {
        regs[k] := 0;
      }
      delayTimer := 0;
      soundTimer := 0;
      pc := Memory.RomStartAt;
      I := 0;
    }

    /** One iteration of `timers_thread`: each timer independently decremented unless zero. */
    method Tick()
      modifies this
      ensures delayTimer == TickTimer(old(delayTimer))
      ensures soundTimer == TickTimer(old(soundTimer))
      ensures font == old(font) && ram == old(ram) && stack == old(stack) && V == old(V)
      ensures pc == old(pc) && I == old(I) && rom == old(rom)
    {
      if delayTimer != 0 {
        delayTimer := delayTimer - 1;
      }
      if soundTimer != 0 {
        soundTimer := soundTimer - 1;
      }
    }

    /** `timers_thread`, stopped after `iterations` passes of its loop. */
    method TimersThread(iterations: nat)
      modifies this
      ensures delayTimer == Ticks(old(delayTimer), iterations)
      ensures soundTimer == Ticks(old(soundTimer), iterations)
      ensures font == old(font) && ram == old(ram) && stack == old(stack) && V == old(V)
      ensures pc == old(pc) && I == old(I) && rom == old(rom)
    {
      var n := 0;
      while n < iterations
        invariant n <= iterations
        invariant delayTimer == Ticks(old(delayTimer), n)
        invariant soundTimer == Ticks(old(soundTimer), n)
        invariant font == old(font) && ram == old(ram) && stack == old(stack) && V == old(V)
        invariant pc == old(pc) && I == old(I) && rom == old(rom)
      {
        Tick();
        n := n + 1;
      }
    }
  }
}
