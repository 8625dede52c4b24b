/**
 * The monochrome framebuffer: a 64 x 32 grid of on/off pixel states kept in
 * one flat vector, addressed row by row, with XOR sprite drawing.
 * Rendering (the SDL rectangles, colours and `update`) is not modelled; only
 * the boolean state of each pixel is.
 */
module Display {
  import opened Types

  const Width: nat := 64
  const Height: nat := 32

  /** Size of the pixel vector allocated by `Display::init`. */
  const PixelCount: nat := Width * Height

  /** Flat position of pixel (x, y); nothing keeps x below Width. */
  function Index(x: nat, y: nat): (r: nat)
    ensures x < Width ==> Width * y <= r < Width * (y + 1)
  {
    Width * y + x
  }

  /** FLAGS[i] selects bit i of a sprite row. */
  const Flags: seq<bv8> := [0x01, 0x02, 0x04, 0x08, 0x10, 0x20, 0x40, 0x80]

  /** A blank framebuffer: every pixel off. */
  const Blank: seq<bool> := seq(PixelCount, _ => false)

  /**
   * Column rx of a sprite row is lit: `row & FLAGS[7 - rx]` is non-zero, so the
   * most significant bit is the leftmost column. Rows are `std::byte` values
   * taken as eight bits.
   */
  predicate Lit(row: bv8, rx: nat)
    requires rx < 8
  {
    row & Flags[7 - rx] != 0
  }

  /**
   * The flat positions addressed by the lit bits of the first `cols` columns
   * of a sprite drawn with its top-left corner at (x, y).
   */
  ghost function Marks(x: nat, y: nat, sprite: seq<bv8>, cols: nat): set<nat>
    requires cols <= 8
  {
    set rx: nat, ry: nat | rx < cols && ry < |sprite| && Lit(sprite[ry], rx) :: Index(x + rx, y + ry)
  }

  /** The flat positions addressed by column rx of the first `rows` sprite rows. */
  ghost function ColumnMarks(x: nat, y: nat, sprite: seq<bv8>, rx: nat, rows: nat): set<nat>
    requires rx < 8 && rows <= |sprite|
  {
    set ry: nat | ry < rows && Lit(sprite[ry], rx) :: Index(x + rx, y + ry)
  }

  /** The positions a draw at (x, y) toggles, before the range check: the origin wraps first. */
  ghost function Targets(x: nat, y: nat, sprite: seq<bv8>): set<nat>
  {
    Marks(x % Width, y % Height, sprite, 8)
  }

  /** `pix` with every position of `s` inside the vector flipped. */
  ghost function Flipped(pix: seq<bool>, s: set<nat>): seq<bool>
  {
    seq(|pix|, p requires 0 <= p < |pix| => pix[p] != (p in s))
  }

  /** Some position of `s` inside the vector holds a pixel that is on. */
  ghost predicate HitsOn(pix: seq<bool>, s: set<nat>)
  {
    exists p :: p in s && p < |pix| && pix[p]
  }

  /** The framebuffer after drawing `sprite` at (x, y): every targeted pixel inside the vector flips. */
  ghost function Drawn(pix: seq<bool>, x: nat, y: nat, sprite: seq<bv8>): seq<bool>
  {
    Flipped(pix, Targets(x, y, sprite))
  }

  /** Drawing `sprite` at (x, y) flips at least one pixel that is on. */
  ghost predicate Collides(pix: seq<bool>, x: nat, y: nat, sprite: seq<bv8>)
  {
    HitsOn(pix, Targets(x, y, sprite))
  }

  // ---------------------------------------------------------------------
  // Addressing (display.hpp)
  // ---------------------------------------------------------------------

  /** FLAGS holds the eight single-bit masks, FLAGS[i] == 1 << i. */
  lemma FlagsAreSingleBits()
    ensures |Flags| == 8
    ensures forall i :: 0 <= i < 8 ==> Flags[i] == (1 as bv8) << i
  {
  }

  /** Every in-grid coordinate addresses a slot of the pixel vector. */
  lemma IndexInGrid(x: nat, y: nat)
    requires x < Width && y < Height
    ensures Index(x, y) < PixelCount
  {
  }

  /** Distinct in-grid coordinates address distinct slots. */
  lemma IndexInjective(x1: nat, y1: nat, x2: nat, y2: nat)
    requires x1 < Width && y1 < Height && x2 < Width && y2 < Height
    requires Index(x1, y1) == Index(x2, y2)
    ensures x1 == x2 && y1 == y2
  {
  }

  /** Every slot of the pixel vector is the index of exactly the grid cell (p % 64, p / 64). */
  lemma IndexCoversGrid(p: nat)
    requires p < PixelCount
    ensures p % Width < Width && p / Width < Height && Index(p % Width, p / Width) == p
  {
  }

  /**
   * Columns past the right edge are not wrapped: column x + rx >= 64 of row
   * y + ry is the slot of column x + rx - 64 of the next row.
   */
  lemma IndexSpillsIntoNextRow(x: nat, y: nat)
    requires Width <= x < Width + 8
    ensures Index(x, y) == Index(x - Width, y + 1)
  {
  }

  // ---------------------------------------------------------------------
  // Properties of a draw
  // ---------------------------------------------------------------------

  /** Two bits of one sprite never address the same slot, so no pixel flips twice in a draw. */
  lemma MarkUnique(x: nat, y: nat, a: nat, b: nat, rx: nat, ry: nat)
    requires a < 8 && rx < 8
    requires Index(x + a, y + b) == Index(x + rx, y + ry)
    ensures a == rx && b == ry
  {
  }

  /** The origin is reduced modulo the grid size: drawing one screen further right or down is the same draw. */
  lemma {:induction false} DrawWrapsOrigin(pix: seq<bool>, x: nat, y: nat, sprite: seq<bv8>)
    ensures Drawn(pix, x + Width, y + Height, sprite) == Drawn(pix, x, y, sprite)
    ensures Collides(pix, x + Width, y + Height, sprite) == Collides(pix, x, y, sprite)
  {
    assert (x + Width) % Width == x % Width;
    assert (y + Height) % Height == y % Height;
    assert Targets(x + Width, y + Height, sprite) == Targets(x, y, sprite);
  }

  /** A lit sprite bit flips the pixel it addresses, when that slot exists. */
  lemma DrawTogglesLitBit(pix: seq<bool>, x: nat, y: nat, sprite: seq<bv8>, rx: nat, ry: nat)
    requires rx < 8 && ry < |sprite| && Lit(sprite[ry], rx)
    requires Index(x % Width + rx, y % Height + ry) < |pix|
    ensures var p := Index(x % Width + rx, y % Height + ry);
            Drawn(pix, x, y, sprite)[p] == !pix[p]
  {
    assert Index(x % Width + rx, y % Height + ry) in Targets(x, y, sprite);
  }

  /** A pixel no lit sprite bit addresses keeps its state. */
  lemma DrawKeepsUnlitPixels(pix: seq<bool>, x: nat, y: nat, sprite: seq<bv8>, p: nat)
    requires p < |pix|
    requires forall rx, ry :: 0 <= rx < 8 && 0 <= ry < |sprite| && Lit(sprite[ry], rx) ==>
                                Index(x % Width + rx, y % Height + ry) != p
    ensures Drawn(pix, x, y, sprite)[p] == pix[p]
  {
    assert p !in Targets(x, y, sprite);
  }

  /**
   * A lit bit past the right edge flips the pixel at the start of the next
   * row, provided that row is inside the grid.
   */
  lemma DrawSpillsIntoNextRow(pix: seq<bool>, x: nat, y: nat, sprite: seq<bv8>, rx: nat, ry: nat)
    requires |pix| == PixelCount
    requires x < Width && y < Height
    requires rx < 8 && ry < |sprite| && Lit(sprite[ry], rx)
    requires x + rx >= Width && y + ry + 1 < Height
    ensures var p := Index(x + rx - Width, y + ry + 1);
            Drawn(pix, x, y, sprite)[p] == !pix[p]
  {
    DrawTogglesLitBit(pix, x, y, sprite, rx, ry);
  }

  /** There is no vertical wrap: rows above the (wrapped) origin are never touched. */
  lemma NoVerticalWrap(pix: seq<bool>, x: nat, y: nat, sprite: seq<bv8>, p: nat)
    requires p < |pix| && p < Width * (y % Height)
    ensures Drawn(pix, x, y, sprite)[p] == pix[p]
  {
    assert p !in Targets(x, y, sprite);
  }

  /** Slots past the end of the pixel vector are skipped: a draw never changes the vector's size. */
  lemma DrawSkipsOutOfRange(pix: seq<bool>, x: nat, y: nat, sprite: seq<bv8>)
    ensures |Drawn(pix, x, y, sprite)| == |pix|
    ensures Collides(pix, x, y, sprite) <==>
              exists rx, ry :: 0 <= rx < 8 && 0 <= ry < |sprite| && Lit(sprite[ry], rx) &&
                Index(x % Width + rx, y % Height + ry) < |pix| && pix[Index(x % Width + rx, y % Height + ry)]
  {
    if Collides(pix, x, y, sprite) {
      var p :| p in Targets(x, y, sprite) && p < |pix| && pix[p];
      var rx: nat, ry: nat :| rx < 8 && ry < |sprite| && Lit(sprite[ry], rx) && Index(x % Width + rx, y % Height + ry) == p;
      assert Lit(sprite[ry], rx) && Index(x % Width + rx, y % Height + ry) < |pix|;
    }
    if exists rx, ry :: 0 <= rx < 8 && 0 <= ry < |sprite| && Lit(sprite[ry], rx) &&
         Index(x % Width + rx, y % Height + ry) < |pix| && pix[Index(x % Width + rx, y % Height + ry)] {
      var rx, ry :| 0 <= rx < 8 && 0 <= ry < |sprite| && Lit(sprite[ry], rx) &&
         Index(x % Width + rx, y % Height + ry) < |pix| && pix[Index(x % Width + rx, y % Height + ry)];
      assert Index(x % Width + rx, y % Height + ry) in Targets(x, y, sprite);
    }
  }

  /** Every flip is an XOR, so drawing the same sprite twice restores the framebuffer. */
  lemma {:induction false} DrawTwiceRestores(pix: seq<bool>, x: nat, y: nat, sprite: seq<bv8>)
    ensures Drawn(Drawn(pix, x, y, sprite), x, y, sprite) == pix
  {
    var once := Drawn(pix, x, y, sprite);
    var twice := Drawn(once, x, y, sprite);
    assert |twice| == |pix|;
    forall p | 0 <= p < |pix|
      ensures twice[p] == pix[p]
    {
    }
  }

  /**
   * If the first draw turned a pixel on, drawing the same sprite again at the
   * same place turns it off again and reports a collision.
   */
  lemma SecondDrawCollides(pix: seq<bool>, x: nat, y: nat, sprite: seq<bv8>, p: nat)
    requires p < |pix| && !pix[p] && Drawn(pix, x, y, sprite)[p]
    ensures Collides(Drawn(pix, x, y, sprite), x, y, sprite)
  {
    assert p in Targets(x, y, sprite);
  }

  /** An empty sprite, or one whose rows are all zero, changes nothing and never collides. */
  lemma {:induction false} BlankSpriteDrawsNothing(pix: seq<bool>, x: nat, y: nat, sprite: seq<bv8>)
    requires forall ry :: 0 <= ry < |sprite| ==> sprite[ry] == 0
    ensures Drawn(pix, x, y, sprite) == pix
    ensures !Collides(pix, x, y, sprite)
  {
    assert forall p :: p !in Targets(x, y, sprite);
    assert Drawn(pix, x, y, sprite) == pix;
  }

  /** Drawing onto a cleared framebuffer never reports a collision. */
  lemma DrawOnBlankNeverCollides(x: nat, y: nat, sprite: seq<bv8>)
    ensures !Collides(Blank, x, y, sprite)
  {
  }

  // ---------------------------------------------------------------------
  // Steps used by the loop of Display.Draw
  // ---------------------------------------------------------------------

  lemma ColumnMarksStep(x: nat, y: nat, sprite: seq<bv8>, rx: nat, ry: nat)
    requires rx < 8 && ry < |sprite|
    ensures ColumnMarks(x, y, sprite, rx, ry + 1) ==
              ColumnMarks(x, y, sprite, rx, ry) + (if Lit(sprite[ry], rx) then {Index(x + rx, y + ry)} else {})
  {
  }

  lemma MarksStep(x: nat, y: nat, sprite: seq<bv8>, rx: nat)
    requires rx < 8
    ensures Marks(x, y, sprite, rx + 1) == Marks(x, y, sprite, rx) + ColumnMarks(x, y, sprite, rx, |sprite|)
  {
  }

  lemma FlipOneMore(pix: seq<bool>, done: set<nat>, p: nat)
    requires p !in done
    ensures p < |pix| ==> Flipped(pix, done + {p}) == Flipped(pix, done)[p := !Flipped(pix, done)[p]]
    ensures p >= |pix| ==> Flipped(pix, done + {p}) == Flipped(pix, done)
    ensures HitsOn(pix, done + {p}) <==> HitsOn(pix, done) || (p < |pix| && pix[p])
  {
  }

  lemma MarkIsNew(x: nat, y: nat, sprite: seq<bv8>, rx: nat, ry: nat)
    requires rx < 8 && ry < |sprite|
    ensures Index(x + rx, y + ry) !in Marks(x, y, sprite, rx)
    ensures Index(x + rx, y + ry) !in ColumnMarks(x, y, sprite, rx, ry)
  {
    if Index(x + rx, y + ry) in Marks(x, y, sprite, rx) {
      var a: nat, b: nat :| a < rx && b < |sprite| && Lit(sprite[b], a) && Index(x + a, y + b) == Index(x + rx, y + ry);
      MarkUnique(x, y, a, b, rx, ry);
    }
  }

  /** `display::Display`: the pixel states of the framebuffer. */
  class Display {
    var pixels: array<bool>

    ghost predicate Valid()
      reads this
    {
      pixels.Length == PixelCount
    }

    /** `Display::init`: allocates the pixel vector with every pixel off. */
    constructor Init()
      ensures Valid() && fresh(pixels)
      ensures pixels[..] == Blank
    {
      pixels := new bool[PixelCount](_ => false);
    }

    /** `Display::clear`: turns every pixel of the grid off, column by column. */
    method Clear()
      requires Valid()
      modifies pixels
      ensures pixels[..] == Blank
    {
      for x := 0 to Width
        invariant forall x', y' :: 0 <= x' < x && 0 <= y' < Height ==> !pixels[Index(x', y')]
      {
        for y := 0 to Height
          invariant forall x', y' :: 0 <= x' < x && 0 <= y' < Height ==> !pixels[Index(x', y')]
          invariant forall y' :: 0 <= y' < y ==> !pixels[Index(x, y')]
        {
          var p := Index(x, y);
          pixels[p] := false;
        }
      }
      forall p | 0 <= p < PixelCount
        ensures !pixels[p]
      {
        IndexCoversGrid(p);
      }
    }

    /**
     * `Display::draw`: XORs `sprite` onto the framebuffer at (x mod 64, y mod 32)
     * and returns 1 when a pixel that was on has been turned off, else 0.
     */
    method Draw(x: nat, y: nat, sprite: seq<bv8>) returns (ret: int)
      requires Valid()
      modifies pixels
      ensures pixels[..] == Drawn(old(pixels[..]), x, y, sprite)
      ensures ret == (if Collides(old(pixels[..]), x, y, sprite) then 1 else 0)
    {
      ret := 0;
      var ox, oy := x % Width, y % Height;
      ghost var before := pixels[..];
      for rx := 0 to 8
        invariant pixels[..] == Flipped(before, Marks(ox, oy, sprite, rx))
        invariant ret == if HitsOn(before, Marks(ox, oy, sprite, rx)) then 1 else 0
      {
        ret := DrawColumn(ox, oy, sprite, rx, ret, before);
      }
      assert Targets(x, y, sprite) == Marks(ox, oy, sprite, 8);
    }

    /**
     * One pass of the outer loop of `Display::draw`: column rx of every sprite
     * row, on top of the columns before it.
     */
    method DrawColumn(ox: nat, oy: nat, sprite: seq<bv8>, rx: nat, ret0: int, ghost before: seq<bool>) returns (ret: int)
      requires Valid() && rx < 8
      requires pixels[..] == Flipped(before, Marks(ox, oy, sprite, rx))
      requires ret0 == if HitsOn(before, Marks(ox, oy, sprite, rx)) then 1 else 0
      modifies pixels
      ensures pixels[..] == Flipped(before, Marks(ox, oy, sprite, rx + 1))
      ensures ret == if HitsOn(before, Marks(ox, oy, sprite, rx + 1)) then 1 else 0
    {
      ret := ret0;
      ghost var done := Marks(ox, oy, sprite, rx);
      for ry := 0 to |sprite|
        invariant done == Marks(ox, oy, sprite, rx) + ColumnMarks(ox, oy, sprite, rx, ry)
        invariant pixels[..] == Flipped(before, done)
        invariant ret == if HitsOn(before, done) then 1 else 0
      {
        ColumnMarksStep(ox, oy, sprite, rx, ry);
        if sprite[ry] & Flags[7 - rx] != 0 {
          var p := Index(ox + rx, oy + ry);
          MarkIsNew(ox, oy, sprite, rx, ry);
          FlipOneMore(before, done, p);
          if p < pixels.Length {
            pixels[p] := !pixels[p];
            if !pixels[p] {
              ret := 1;
            }
          }
          done := done + {p};
        }
      }
      MarksStep(ox, oy, sprite, rx);
    }
  }
}
