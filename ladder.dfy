/**
 * The ladder block: a climbable block that attaches to the side of a supporting block.
 * It resolves a use-on-block interaction into a facing (or a rejection), breaks off when
 * its support becomes a light diffuser, never closes a side, and encodes its facing.
 */
module Ladders {
  import opened Wrappers
  import opened Cube
  import opened World

  const LadderId: string := "minecraft:ladder"
  const FacingDirection: string := "facing_direction"

  // ---------------------------------------------------------------------------
  // Placement
  // ---------------------------------------------------------------------------

  /** The cell and clicked face that the first-replaceable query settles on. */
  datatype Target = Target(pos: Pos, face: Face)

  /** A successful resolution: put a ladder with this facing into this cell. */
  datatype Placement = Placement(pos: Pos, facing: Face)

  /** The side faces tried, in this order, when the clicked face gives no support. */
  const FallbackOrder: seq<Face> := [South, North, East, West]

  /** The fallback scan accepts a neighbour that is not a diffuser, or is a fully opaque one. */
  predicate OffersSupport(b: Block) {
    Diffusion(b).None? || Diffusion(b).value == FullyOpaque
  }

  /**
   * The index of the first candidate face whose neighbour of p offers support,
   * or |cands| when none does.
   */
  function FirstSupported(w: Cells, p: Pos, cands: seq<Face>): (k: nat)
    ensures k <= |cands|
    ensures k < |cands| ==> OffersSupport(CellAt(w, p.Side(cands[k])))
    ensures forall j :: 0 <= j < k ==> !OffersSupport(CellAt(w, p.Side(cands[j])))
    decreases |cands|
  {
    if cands == [] then 0
    else if OffersSupport(CellAt(w, p.Side(cands[0]))) then 0
    else 1 + FirstSupported(w, p, cands[1..])
  }

  /** The facing the fallback scan settles on: the opposite of the first supported side. */
  function Fallback(w: Cells, p: Pos): (f: Option<Face>)
    ensures f.Some? <==> exists c :: c in FallbackOrder && OffersSupport(CellAt(w, p.Side(c)))
    ensures f.Some? ==> IsHorizontal(f.value) && OffersSupport(CellAt(w, p.Side(Opposite(f.value))))
  {
    var k := FirstSupported(w, p, FallbackOrder);
    if k < |FallbackOrder| then
      OppositeInvolution(FallbackOrder[k]);
      assert FallbackOrder[k] in FallbackOrder;
      Some(Opposite(FallbackOrder[k]))
    else
      None
  }

  /**
   * The placement decision for a ladder: None rejects, Some(Placement(p, f)) puts a
   * ladder facing f into cell p.
   */
  function Resolve(w: Cells, target: Option<Target>): (d: Option<Placement>)
    ensures d.Some? ==> target.Some? && d.value.pos == target.value.pos
  {
    match target
    case None => None
    case Some(t) =>
      if t.face == Up || t.face == Down then None
      else if !IsDiffuser(CellAt(w, t.pos.Side(Opposite(t.face)))) then Some(Placement(t.pos, t.face))
      else match Fallback(w, t.pos)
        case None => None
        case Some(f) => Some(Placement(t.pos, f))
  }

  lemma FallbackOrderIsTheSideFaces()
    ensures forall f :: f in FallbackOrder <==> IsHorizontal(f)
  {
  }

  /** No replaceable cell: the interaction is rejected. */
  lemma RejectsWithoutTarget(w: Cells)
    ensures Resolve(w, None) == None
  {
  }

  /** A ladder cannot be put on the top or the bottom of a block. */
  lemma RejectsVerticalFace(w: Cells, t: Target)
    requires !IsHorizontal(t.face)
    ensures Resolve(w, Some(t)) == None
  {
  }

  /** A side face backed by a non-diffuser is taken as it is. */
  lemma KeepsSupportedFace(w: Cells, t: Target)
    requires IsHorizontal(t.face)
    requires !IsDiffuser(CellAt(w, t.pos.Side(Opposite(t.face))))
    ensures Resolve(w, Some(t)) == Some(Placement(t.pos, t.face))
  {
  }

  /**
   * With a diffuser behind the clicked face, the side faces are tried in the order
   * South, North, East, West; the first whose neighbour offers support wins and the
   * ladder faces away from it. When none does, the interaction is rejected.
   */
  lemma FallbackPicksFirstSupportedSide(w: Cells, t: Target)
    requires IsHorizontal(t.face)
    requires IsDiffuser(CellAt(w, t.pos.Side(Opposite(t.face))))
    ensures forall k :: 0 <= k < |FallbackOrder|
                        && OffersSupport(CellAt(w, t.pos.Side(FallbackOrder[k])))
                        && (forall j :: 0 <= j < k ==> !OffersSupport(CellAt(w, t.pos.Side(FallbackOrder[j]))))
                        ==> Resolve(w, Some(t)) == Some(Placement(t.pos, Opposite(FallbackOrder[k])))
    ensures (forall c :: c in FallbackOrder ==> !OffersSupport(CellAt(w, t.pos.Side(c))))
            ==> Resolve(w, Some(t)) == None
  {
    var n := FirstSupported(w, t.pos, FallbackOrder);
    forall k | 0 <= k < |FallbackOrder|
                && OffersSupport(CellAt(w, t.pos.Side(FallbackOrder[k])))
                && (forall j :: 0 <= j < k ==> !OffersSupport(CellAt(w, t.pos.Side(FallbackOrder[j]))))
      ensures Resolve(w, Some(t)) == Some(Placement(t.pos, Opposite(FallbackOrder[k])))
    {
      assert n == k;
    }
    if forall c :: c in FallbackOrder ==> !OffersSupport(CellAt(w, t.pos.Side(c))) {
      if n < |FallbackOrder| {
        assert false;
      }
    }
  }

  /**
   * The scan stops at the first supported side: the sides after it are never looked at,
   * so two worlds that agree up to that side give the same answer.
   */
  lemma {:induction false} FirstSupportedIgnoresLaterSides(w1: Cells, w2: Cells, p: Pos, cands: seq<Face>)
    requires forall j :: 0 <= j < |cands| && j <= FirstSupported(w1, p, cands) ==>
               CellAt(w1, p.Side(cands[j])) == CellAt(w2, p.Side(cands[j]))
    ensures FirstSupported(w1, p, cands) == FirstSupported(w2, p, cands)
    decreases |cands|
  {
    if cands != [] && !OffersSupport(CellAt(w1, p.Side(cands[0]))) {
      assert CellAt(w1, p.Side(cands[0])) == CellAt(w2, p.Side(cands[0]));
      forall j | 0 <= j < |cands[1..]| && j <= FirstSupported(w1, p, cands[1..])
        ensures CellAt(w1, p.Side(cands[1..][j])) == CellAt(w2, p.Side(cands[1..][j]))
      {
        assert cands[1..][j] == cands[j + 1];
      }
      FirstSupportedIgnoresLaterSides(w1, w2, p, cands[1..]);
    } else if cands != [] {
      assert CellAt(w1, p.Side(cands[0])) == CellAt(w2, p.Side(cands[0]));
    }
  }

  /** Every facing that reaches placement is a side face, never Up or Down. */
  lemma ResolvedFacingIsHorizontal(w: Cells, target: Option<Target>)
    ensures Resolve(w, target).Some? ==> IsHorizontal(Resolve(w, target).value.facing)
  {
    if target.Some? && IsHorizontal(target.value.face) {
      var k := FirstSupported(w, target.value.pos, FallbackOrder);
      if k < |FallbackOrder| {
        assert IsHorizontal(FallbackOrder[k]);
      }
    }
  }

  /** The cell behind a placed ladder always offers support. */
  lemma ResolvedFacingIsSupported(w: Cells, target: Option<Target>)
    ensures var d := Resolve(w, target);
            d.Some? ==> OffersSupport(CellAt(w, d.value.pos.Side(Opposite(d.value.facing))))
  {
    if target.Some? && IsHorizontal(target.value.face) {
      var p := target.value.pos;
      var k := FirstSupported(w, p, FallbackOrder);
      if IsDiffuser(CellAt(w, p.Side(Opposite(target.value.face)))) && k < |FallbackOrder| {
        OppositeInvolution(FallbackOrder[k]);
      }
    }
  }

  /**
   * Placement succeeds exactly when the clicked face is a side face and at least one
   * side neighbour of the cell offers support.
   */
  lemma ResolveSucceedsIff(w: Cells, t: Target)
    ensures Resolve(w, Some(t)).Some? <==>
            IsHorizontal(t.face) && exists c :: c in FallbackOrder && OffersSupport(CellAt(w, t.pos.Side(c)))
  {
    FallbackOrderIsTheSideFaces();
    if IsHorizontal(t.face) {
      var p := t.pos;
      var back := Opposite(t.face);
      if !IsDiffuser(CellAt(w, p.Side(back))) {
        assert back in FallbackOrder && OffersSupport(CellAt(w, p.Side(back)));
      } else {
        FallbackPicksFirstSupportedSide(w, t);
        var k := FirstSupported(w, p, FallbackOrder);
        if exists c :: c in FallbackOrder && OffersSupport(CellAt(w, p.Side(c))) {
          var c :| c in FallbackOrder && OffersSupport(CellAt(w, p.Side(c)));
          var i :| 0 <= i < |FallbackOrder| && FallbackOrder[i] == c;
          assert k <= i;
        } else {
          if k < |FallbackOrder| {
            assert FallbackOrder[k] in FallbackOrder;
          }
        }
      }
    }
  }

  /**
   * A fully opaque diffuser behind the clicked face sends the resolver to the fallback
   * scan, which may choose a different side: here South wins over the clicked West face.
   */
  lemma OpaqueDiffuserSupportCanChangeFacing()
    ensures var p := Pos(0, 0, 0);
            var w := map[p.Side(East) := Other("glass", Some(FullyOpaque)), p.Side(South) := Other("stone", None)];
            Resolve(w, Some(Target(p, West))) == Some(Placement(p, North))
  {
    var p := Pos(0, 0, 0);
    var w := map[p.Side(East) := Other("glass", Some(FullyOpaque)), p.Side(South) := Other("stone", None)];
    assert FirstSupported(w, p, FallbackOrder) == 0;
  }

  /**
   * Places a ladder in response to a use-on-block interaction. `firstReplaceable` is the
   * shared first-replaceable-cell query, given the block about to be placed. `writes` is
   * whether the shared placement routine puts the block into the world, and `reports` is
   * what the use context then says about whether a block was placed; nothing ties the two.
   * A rejection by Resolve changes nothing and never reaches the placement routine.
   */
  method UseOnBlock(l: Ladder, pos: Pos, face: Face, tx: Tx,
                    firstReplaceable: (Cells, Pos, Face, Block) -> Option<Target>,
                    writes: bool, reports: bool)
    returns (ok: bool)
    modifies tx
    ensures var d := Resolve(old(tx.cells), firstReplaceable(old(tx.cells), pos, face, LadderBlock(l)));
            && ok == (d.Some? && reports)
            && tx.cells == if d.Some? && writes
                           then old(tx.cells)[d.value.pos := LadderBlock(Ladder(d.value.facing))]
                           else old(tx.cells)
    ensures tx.particles == old(tx.particles) && tx.drops == old(tx.drops)
  {
    ghost var w := tx.cells;
    var target := firstReplaceable(tx.cells, pos, face, LadderBlock(l));
    if target.None? {
      return false;
    }
    var p, f := target.value.pos, target.value.face;
    if f == Up || f == Down {
      return false;
    }
    if IsDiffuser(tx.BlockAt(p.Side(Opposite(f)))) {
      var found := false;
      var i := 0;
      while i < |FallbackOrder|
        invariant 0 <= i <= |FallbackOrder|
        invariant !found
        invariant FirstSupported(w, p, FallbackOrder) == i + FirstSupported(w, p, FallbackOrder[i..])
      {
        var c := FallbackOrder[i];
        if OffersSupport(tx.BlockAt(p.Side(c))) {
          found := true;
          f := Opposite(c);
          break;
        }
        assert FallbackOrder[i..][1..] == FallbackOrder[i + 1..];
        i := i + 1;
      }
      if !found {
        return false;
      }
    }
    var placed := Ladder(f);
    Place(tx, p, LadderBlock(placed), writes);
    ok := reports;
  }

  // ---------------------------------------------------------------------------
  // Neighbour reaction
  // ---------------------------------------------------------------------------

  /**
   * A ladder in cell pos breaks off when the cell behind it holds a light diffuser: air
   * or another ladder behind it always make it break off, and a ladder that stays is
   * backed by a block the fallback scan would also accept.
   */
  predicate Detaches(w: Cells, l: Ladder, pos: Pos): (d: bool)
    ensures CellAt(w, pos.Side(Opposite(l.facing))) == Air ==> d
    ensures CellAt(w, pos.Side(Opposite(l.facing))).LadderBlock? ==> d
    ensures !d ==> OffersSupport(CellAt(w, pos.Side(Opposite(l.facing))))
  {
    IsDiffuser(CellAt(w, pos.Side(Opposite(l.facing))))
  }

  /**
   * Reacts to a change next to the ladder in cell pos: without support it clears its
   * cell, shows one break particle and drops one ladder item; otherwise nothing happens.
   */
  method NeighbourUpdateTick(l: Ladder, pos: Pos, changed: Pos, tx: Tx)
    modifies tx
    ensures Detaches(old(tx.cells), l, pos) ==>
              && tx.cells == old(tx.cells)[pos := Air]
              && tx.particles == old(tx.particles) + [BlockBreak(pos, LadderBlock(l))]
              && tx.drops == old(tx.drops) + [Drop(Stack(LadderBlock(l), 1), pos)]
    ensures !Detaches(old(tx.cells), l, pos) ==>
              tx.cells == old(tx.cells) && tx.particles == old(tx.particles) && tx.drops == old(tx.drops)
    ensures Detaches(old(tx.cells), l, pos) ==> tx.BlockAt(pos) == Air
    ensures forall q :: q != pos ==> tx.BlockAt(q) == old(tx.BlockAt(q))
  {
    if IsDiffuser(tx.BlockAt(pos.Side(Opposite(l.facing)))) {
      tx.SetBlock(pos, Air);
      tx.AddParticle(BlockBreak(pos, LadderBlock(l)));
      tx.DropItem(Stack(LadderBlock(l), 1), pos);
    }
  }

  /**
   * Right after placement, the new ladder breaks off at its next neighbour update exactly
   * when the block behind it is a fully opaque diffuser: the fallback scan accepts such a
   * block as support, the neighbour reaction does not.
   */
  lemma PlacedLadderDetachesIffOpaqueDiffuserBehind(w: Cells, target: Option<Target>)
    requires Resolve(w, target).Some?
    ensures var d := Resolve(w, target).value;
            var after := w[d.pos := LadderBlock(Ladder(d.facing))];
            Detaches(after, Ladder(d.facing), d.pos) <==>
            Diffusion(CellAt(w, d.pos.Side(Opposite(d.facing)))) == Some(FullyOpaque)
  {
    var d := Resolve(w, target).value;
    ResolvedFacingIsSupported(w, target);
    var back := d.pos.Side(Opposite(d.facing));
    assert back != d.pos;
    assert CellAt(w[d.pos := LadderBlock(Ladder(d.facing))], back) == CellAt(w, back);
  }

  /** A ladder put against a fully opaque diffuser does not stay: the next update drops it. */
  lemma OpaqueDiffuserSupportDropsLadder()
    ensures var p := Pos(0, 0, 0);
            var w := map[p.Side(South) := Other("glass", Some(FullyOpaque))];
            && Resolve(w, Some(Target(p, North))) == Some(Placement(p, North))
            && Detaches(w[p := LadderBlock(Ladder(North))], Ladder(North), p)
  {
    var p := Pos(0, 0, 0);
    var w := map[p.Side(South) := Other("glass", Some(FullyOpaque))];
    assert FirstSupported(w, p, FallbackOrder) == 0;
  }

  // ---------------------------------------------------------------------------
  // Other capabilities, encoding and enumeration
  // ---------------------------------------------------------------------------

  /** A ladder never closes any side of its cell, whatever its facing. */
  function SideClosed(l: Ladder, pos: Pos, side: Pos, w: Cells): (closed: bool)
    ensures !closed
  {
    false
  }

  /** The item form: identifier and legacy metadata value. */
  function EncodeItem(l: Ladder): (r: (string, Int16))
    ensures r.0 == EncodeBlock(l).0
    ensures r.1 == 0
  {
    (LadderId, 0)
  }

  /** The block form: identifier and properties, the facing stored as its numeric value. */
  function EncodeBlock(l: Ladder): (r: (string, map<string, Int32>))
    ensures r.0 == LadderId && r.1.Keys == {FacingDirection}
    ensures FaceFromIndex(r.1[FacingDirection]) == Some(l.facing)
  {
    FaceIndexRoundTrip(l.facing);
    (LadderId, map[FacingDirection := FaceIndex(l.facing)])
  }

  /** The inverse of EncodeBlock: accepts exactly the forms EncodeBlock produces. */
  function DecodeBlock(name: string, props: map<string, Int32>): (r: Option<Ladder>) {
    if name == LadderId && props.Keys == {FacingDirection} then
      match FaceFromIndex(props[FacingDirection])
      case None => None
      case Some(f) => Some(Ladder(f))
    else None
  }

  /** All ladders share one item form, named like the block form. */
  lemma ItemFormIgnoresFacing(a: Ladder, b: Ladder)
    ensures EncodeItem(a) == EncodeItem(b)
    ensures EncodeItem(a).0 == EncodeBlock(b).0
    ensures EncodeItem(a).1 == 0
  {
  }

  /** Decoding the block form gives back the ladder, Up and Down included. */
  lemma EncodeBlockRoundTrip(l: Ladder)
    ensures DecodeBlock(EncodeBlock(l).0, EncodeBlock(l).1) == Some(l)
  {
    FaceIndexRoundTrip(l.facing);
  }

  /** Whatever decodes to a ladder is that ladder's block form. */
  lemma DecodeBlockRoundTrip(name: string, props: map<string, Int32>)
    requires DecodeBlock(name, props).Some?
    ensures EncodeBlock(DecodeBlock(name, props).value) == (name, props)
  {
    var i := props[FacingDirection];
    FaceFromIndexRoundTrip(i);
    assert props == map[FacingDirection := i];
  }

  /** Different facings have different block forms. */
  lemma EncodeBlockInjective(a: Ladder, b: Ladder)
    ensures EncodeBlock(a) == EncodeBlock(b) ==> a == b
  {
    EncodeBlockRoundTrip(a);
    EncodeBlockRoundTrip(b);
  }

  /** Every ladder state, one per face, in the order of Faces(). */
  method AllLadders() returns (b: seq<Block>)
    ensures |b| == |Faces()|
    ensures forall i :: 0 <= i < |b| ==> b[i] == LadderBlock(Ladder(Faces()[i]))
    ensures forall l: Ladder :: LadderBlock(l) in b
    ensures forall i, j :: 0 <= i < j < |b| ==> b[i] != b[j]
  {
    b := [];
    var faces := Faces();
    for k := 0 to |faces|
      invariant |b| == k
      invariant forall i :: 0 <= i < k ==> b[i] == LadderBlock(Ladder(faces[i]))
    {
      b := b + [LadderBlock(Ladder(faces[k]))];
    }
    FacesListsEachFaceOnce();
    forall l: Ladder
      ensures LadderBlock(l) in b
    {
      assert l.facing in faces;
      var i :| 0 <= i < |faces| && faces[i] == l.facing;
      assert b[i] == LadderBlock(l);
    }
  }

}
