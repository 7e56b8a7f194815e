/**
 * The world as a block sees it through a transaction: a map from cells to blocks,
 * the light-diffusion capability of blocks, and the logs of particles and dropped items.
 */
module World {
  import opened Wrappers
  import opened Cube

  /** A light-diffusion level, an unsigned 8-bit value; 15 is fully opaque. */
  newtype Level = x: int | 0 <= x < 256

  const FullyOpaque: Level := 15

  /** A ladder block value: the side of the cell it is attached to. */
  datatype Ladder = Ladder(facing: Face)

  /**
   * A block value. Blocks other than air and ladders are described only by a name and by
   * whether they implement the light-diffuser capability, and at what level.
   */
  datatype Block =
    | Air
    | LadderBlock(ladder: Ladder)
    | Other(name: string, diffusion: Option<Level>)

  /**
   * The light-diffuser capability: Some(level) when the block implements it. Air and the
   * ladder are transparent, which makes them diffusers of level 0.
   */
  function Diffusion(b: Block): (d: Option<Level>)
    ensures b.Other? || d == Some(0)
  {
    match b
    case Air => Some(0)
    case LadderBlock(_) => Some(0)
    case Other(_, level) => level
  }

  predicate IsDiffuser(b: Block) {
    Diffusion(b).Some?
  }

  /** The contents of the world; a cell missing from the map holds air. */
  type Cells = map<Pos, Block>

  function CellAt(w: Cells, p: Pos): (b: Block) {
    if p in w then w[p] else Air
  }

  /** A block-break particle shown at the centre of a cell. */
  datatype Particle = BlockBreak(at: Pos, block: Block)

  datatype Stack = Stack(item: Block, count: nat)

  /** An item entity spawned at the centre of a cell. */
  datatype Drop = Drop(stack: Stack, at: Pos)

  /** A world transaction: the blocks it sees and the effects it has emitted so far. */
  class Tx {
    var cells: Cells
    var particles: seq<Particle>
    var drops: seq<Drop>

    constructor (cells: Cells)
      ensures this.cells == cells && particles == [] && drops == []
    {
      this.cells := cells;
      particles := [];
      drops := [];
    }

    /** The block currently in cell p. */
    function BlockAt(p: Pos): (b: Block)
      reads this
    {
      CellAt(cells, p)
    }

    method SetBlock(p: Pos, b: Block)
      modifies this
      ensures cells == old(cells)[p := b]
      ensures particles == old(particles) && drops == old(drops)
    {
      cells := cells[p := b];
    }

    method AddParticle(particle: Particle)
      modifies this
      ensures particles == old(particles) + [particle]
      ensures cells == old(cells) && drops == old(drops)
    {
      particles := particles + [particle];
    }

    /** Spawns an item entity holding the stack. */
    method DropItem(stack: Stack, at: Pos)
      modifies this
      ensures drops == old(drops) + [Drop(stack, at)]
      ensures cells == old(cells) && particles == old(particles)
    {
      drops := drops + [Drop(stack, at)];
    }
  }

  /**
   * The shared placement routine. Whether it writes the block (no entity in the way,
   * the placing item consumed) is decided outside this model and given as `writes`.
   */
  method Place(tx: Tx, p: Pos, b: Block, writes: bool)
    modifies tx
    ensures tx.cells == if writes then old(tx.cells)[p := b] else old(tx.cells)
    ensures tx.particles == old(tx.particles) && tx.drops == old(tx.drops)
  {
    if writes {
      tx.SetBlock(p, b);
    }
  }

}
