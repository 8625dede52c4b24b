/**
 * The 4 KB main memory: MEM_SIZE = 4096 bytes, every access bounds-checked by
 * `std::vector::at`, with the glyph table at FONT_START_AT = 0x50 and the
 * program at ROM_START_AT = 0x200.
 *
 * The ROM file is modelled by the bytes it holds; opening it and seeking are
 * not modelled. `view_memory` is modelled by the bytes it would log.
 */
module Memory {
  import opened Types
  import Font

  const MemSize: nat := 4096
  const FontStartAt: nat := 0x50
  const RomStartAt: nat := 0x200

  /** The memory `init` allocates: MEM_SIZE zero bytes. */
  const Zeroed: seq<byte> := seq(MemSize, _ => 0)

  /** The room after ROM_START_AT; `load_program` itself does not check it. */
  const RomCapacity: nat := MemSize - RomStartAt

  /** `read`: the byte at `addr`, or `std::out_of_range` at or past the end (no wrap). */
  function ReadAt(mem: seq<byte>, addr: Addr): (r: Result<byte>)
    ensures r.Ok? <==> addr < |mem|
    ensures r.Ok? ==> r.value == mem[addr]
    ensures r.Err? ==> r.error == OutOfRange
  {
    if addr < |mem| then Ok(mem[addr]) else Err(OutOfRange)
  }

  /** `write`: the memory with cell `addr` replaced, or `std::out_of_range`. */
  function WriteAt(mem: seq<byte>, addr: Addr, data: byte): (r: Result<seq<byte>>)
    ensures r.Ok? <==> addr < |mem|
    ensures r.Ok? ==> |r.value| == |mem|
    ensures r.Err? ==> r.error == OutOfRange
  {
    if addr < |mem| then Ok(mem[addr := data]) else Err(OutOfRange)
  }

  /** Memory after `load_font`: the glyphs at [0x50, 0x50 + 80), everything else as before. */
  function WithFont(mem: seq<byte>, glyphs: seq<byte>): seq<byte>
    requires |mem| == MemSize && |glyphs| == Font.FontDataSize
  {
    mem[..FontStartAt] + glyphs + mem[FontStartAt + Font.FontDataSize..]
  }

  /** Memory after `load_program`: the ROM at [0x200, 0x200 + |rom|), everything else as before. */
  function WithProgram(mem: seq<byte>, rom: seq<byte>): seq<byte>
    requires |mem| == MemSize && |rom| <= RomCapacity
  {
    mem[..RomStartAt] + rom + mem[RomStartAt + |rom|..]
  }

  /** The bounds check of `view_memory`; `offset + length` is a `size_t` sum and wraps. */
  predicate ViewAccepts(offset: Addr, length: nat)
  {
    offset <= MemSize && (offset + length) % SizeTModulus <= MemSize
  }

  /** The check `view_memory` means to make: the whole chunk lies inside memory. */
  predicate ViewInRange(offset: Addr, length: nat)
  {
    offset + length <= MemSize
  }

  // ---------------------------------------------------------------------
  // Properties
  // ---------------------------------------------------------------------

  /** A read after a write to the same cell returns the byte written; other cells read as before. */
  lemma ReadAfterWrite(mem: seq<byte>, addr: Addr, other: Addr, data: byte)
    requires |mem| == MemSize && addr < MemSize
    ensures WriteAt(mem, addr, data).Ok?
    ensures ReadAt(WriteAt(mem, addr, data).value, addr) == Ok(data)
    ensures other != addr ==> ReadAt(WriteAt(mem, addr, data).value, other) == ReadAt(mem, other)
  {
  }

  /** The font occupies [0x50, 0xA0) and leaves every other cell as it was. */
  lemma {:induction false} FontRegion(mem: seq<byte>, glyphs: seq<byte>, a: nat)
    requires |mem| == MemSize && |glyphs| == Font.FontDataSize && a < MemSize
    ensures |WithFont(mem, glyphs)| == MemSize
    ensures FontStartAt <= a < FontStartAt + Font.FontDataSize ==> WithFont(mem, glyphs)[a] == glyphs[a - FontStartAt]
    ensures !(FontStartAt <= a < FontStartAt + Font.FontDataSize) ==> WithFont(mem, glyphs)[a] == mem[a]
  {
  }

  /** The ROM byte i lands at 0x200 + i, and every other cell is as it was. */
  lemma {:induction false} ProgramRegion(mem: seq<byte>, rom: seq<byte>, a: nat)
    requires |mem| == MemSize && |rom| <= RomCapacity && a < MemSize
    ensures |WithProgram(mem, rom)| == MemSize
    ensures RomStartAt <= a < RomStartAt + |rom| ==> WithProgram(mem, rom)[a] == rom[a - RomStartAt]
    ensures !(RomStartAt <= a < RomStartAt + |rom|) ==> WithProgram(mem, rom)[a] == mem[a]
  {
  }

  /** Loading the program after the font never overwrites the glyphs. */
  lemma FontSurvivesProgramLoad(mem: seq<byte>, glyphs: seq<byte>, rom: seq<byte>)
    requires |mem| == MemSize && |glyphs| == Font.FontDataSize && |rom| <= RomCapacity
    ensures var loaded := WithProgram(WithFont(mem, glyphs), rom);
            loaded[FontStartAt..FontStartAt + Font.FontDataSize] == glyphs
  {
    var withFont := WithFont(mem, glyphs);
    forall a | FontStartAt <= a < FontStartAt + Font.FontDataSize
      ensures WithProgram(withFont, rom)[a] == glyphs[a - FontStartAt]
    {
      FontRegion(mem, glyphs, a);
      ProgramRegion(withFont, rom, a);
    }
  }

  /** Every chunk inside memory passes the check as written. */
  lemma InRangeViewAccepted(offset: Addr, length: nat)
    requires ViewInRange(offset, length)
    ensures ViewAccepts(offset, length)
  {
  }

  /**
   * The `size_t` sum wraps: a chunk of 2^64 - 8 bytes at 16 passes the check
   * as written though it runs far past the end of memory.
   */
  lemma WrappedViewAccepted()
    ensures ViewAccepts(16, SizeTModulus - 8)
    ensures !ViewInRange(16, SizeTModulus - 8)
  {
    assert (16 + (SizeTModulus - 8)) % SizeTModulus == 8;
  }

  /** The intended check accepts exactly the non-empty chunks whose every address can be read. */
  lemma IntendedViewCheck(mem: seq<byte>, offset: Addr, length: nat)
    requires |mem| == MemSize && length > 0
    ensures ViewInRange(offset, length) <==>
              forall a: Addr :: offset <= a < offset + length ==> ReadAt(mem, a).Ok?
  {
    if !ViewInRange(offset, length) {
      var a: Addr := if offset < MemSize then MemSize else offset;
      assert offset <= a < offset + length && !ReadAt(mem, a).Ok?;
    }
  }

  /** `memory::Memory`: the byte vector, written in place. */
  class Memory {
    var memory: array<byte>

    ghost predicate Valid()
      reads this
    {
      memory.Length == MemSize
    }

    ghost function Contents(): (s: seq<byte>)
      reads this, memory
      requires Valid()
      ensures |s| == MemSize
    {
      memory[..]
    }

    /** `Memory::init`: MEM_SIZE zeroed bytes. */
    constructor Init()
      ensures Valid() && fresh(memory)
      ensures Contents() == Zeroed
    {
      memory := new byte[MemSize](_ => 0);
    }

    /** `Memory::read`. */
    method Read(addr: Addr) returns (r: Result<byte>)
      requires Valid()
      ensures r == ReadAt(Contents(), addr)
    {
      if addr < memory.Length {
        r := Ok(memory[addr]);
      } else {
        r := Err(OutOfRange);
      }
    }

    /** `Memory::write`: changes cell `addr` only, or throws and changes nothing. */
    method Write(addr: Addr, data: byte) returns (r: Result<()>)
      requires Valid()
      modifies memory
      ensures r.Ok? <==> WriteAt(old(Contents()), addr, data).Ok?
      ensures r.Err? ==> r.error == OutOfRange && Contents() == old(Contents())
      ensures r.Ok? ==> Contents() == WriteAt(old(Contents()), addr, data).value
    {
      if addr >= memory.Length {
        return Err(OutOfRange);
      }
      memory[addr] := data;
      r := Ok(());
    }

    /** `Memory::load_font`: copies the FONT_DATA_SIZE glyph bytes to FONT_START_AT onwards. */
    method LoadFont(font: Font.Font)
      requires Valid() && font.Valid()
      modifies memory
      ensures Contents() == WithFont(old(Contents()), font.Data())
    {
      for i := 0 to Font.FontDataSize
        invariant forall a :: 0 <= a < MemSize ==>
                    memory[a] == if FontStartAt <= a < FontStartAt + i then font.fontdata[a - FontStartAt] else old(memory[a])
      {
        memory[FontStartAt + i] := font.fontdata[i];
      }
      forall a | 0 <= a < MemSize
        ensures memory[a] == WithFont(old(Contents()), font.Data())[a]
      {
        FontRegion(old(Contents()), font.Data(), a);
      }
    }

    /**
     * `Memory::load_program`: reads the ROM bytes to ROM_START_AT onwards and
     * throws when no byte was read.
     */
    method LoadProgram(rom: seq<byte>) returns (r: Result<()>)
      requires Valid() && |rom| <= RomCapacity
      modifies memory
      ensures Contents() == WithProgram(old(Contents()), rom)
      ensures r.Err? <==> |rom| == 0
      ensures r.Err? ==> r.error == RuntimeError("failed to load rom")
    {
      for i := 0 to |rom|
        invariant forall a :: 0 <= a < MemSize ==>
                    memory[a] == if RomStartAt <= a < RomStartAt + i then rom[a - RomStartAt] else old(memory[a])
      {
        memory[RomStartAt + i] := rom[i];
      }
      forall a | 0 <= a < MemSize
        ensures memory[a] == WithProgram(old(Contents()), rom)[a]
      {
        ProgramRegion(old(Contents()), rom, a);
      }
      var gcount := |rom|;
      if gcount == 0 {
        return Err(RuntimeError("failed to load rom"));
      }
      r := Ok(());
    }

    /**
     * `Memory::view_memory`: the bytes of the chunk it logs, after its bounds
     * check; the loop runs from `offset` up to the wrapped end.
     */
    method ViewMemory(offset: Addr, length: nat) returns (r: Result<seq<byte>>)
      requires Valid() && length < SizeTModulus
      ensures r.Ok? <==> ViewAccepts(offset, length)
      ensures r.Err? ==> r.error == RuntimeError("index out of range when viewing memory chunk")
      ensures r.Ok? ==> var end := (offset + length) % SizeTModulus;
                        r.value == if end <= offset then [] else Contents()[offset..end]
      ensures ViewInRange(offset, length) ==> r == Ok(Contents()[offset..offset + length])
    {
      var end := (offset + length) % SizeTModulus;
      if offset > MemSize || end > MemSize {
        return Err(RuntimeError("index out of range when viewing memory chunk"));
      }
      var chunk := [];
      var i: Addr := offset;
      while i < end
        invariant offset <= i <= MemSize && (offset < end ==> i <= end) && (end <= offset ==> i == offset)
        invariant chunk == memory[offset..i]
        decreases end - i
      {
        var b := Read(i);
        chunk := chunk + [b.value];
        i := i + 1;
      }
      r := Ok(chunk);
    }
  }
}
