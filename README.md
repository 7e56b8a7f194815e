# Ladder block model

A Dafny model of the ladder block of a voxel-world server (`server/block/ladder.go`).
A ladder is a climbable block that hangs on the side of a supporting block. The model covers:

- **Placement.** `UseOnBlock` resolves a use-on-block interaction into a facing, or rejects it.
  It asks the first-replaceable query for the target cell and face and rejects Up and Down.
  It keeps the clicked face when the block behind it is not a light diffuser. Otherwise it scans
  the side faces in the order South, North, East, West. The first side whose neighbour is not a
  diffuser, or is a diffuser of level 15, wins, and the ladder faces the opposite way.
  The decision is the pure function `Resolve`. The method runs the source's loop with its
  `found` flag and early `break`, and its postcondition ties the new world to `Resolve`.
- **Neighbour reaction.** `NeighbourUpdateTick` breaks the ladder off when the block behind it
  is a light diffuser. It clears the cell, emits one break particle and drops one ladder item.
- **Other capabilities.** `SideClosed` is always false. The item form and the block form are
  encoded; the block form stores the facing as its 32-bit numeric value. `AllLadders` gives
  one ladder per face.

Modules:

- `Wrappers`: `Option`.
- `Cube`: faces, `Opposite`, cell positions and `Side`, the numeric value of a face, `Faces()`.
- `World`: block values and the light-diffuser capability. It also holds the transaction class
  `Tx` (a map from cells to blocks, plus logs of particles and dropped items) and the shared
  placement routine `Place`.
- `Ladders`: the ladder itself.

The geometry helpers (`cube.Face`, `cube.Pos.Side`, `cube.Faces`) live in the `cube` package,
outside the modelled file. They are written out with the numbering of the `cube` package:
Down 0, Up 1, North 2, South 3, West 4, East 5. `Faces()` lists them in that order. `Side`
moves y for Up and Down, z for North (-1) and South (+1), and x for West (-1) and East (+1).
Three results follow that numbering as written: `Faces()` holding each face at the position
of its value, the order of `AllLadders`, and the `facing_direction` value `EncodeBlock`
stores. Injectivity and the decoding round trips hold for any one-to-one numbering.

An empty cell holds air. Air and the ladder itself count as light diffusers of level 0: the
ladder is `transparent` (ladder.go:16). So a ladder cannot hang on air or on another ladder.

One consequence is proved rather than assumed. The fallback scan accepts a fully opaque
diffuser (level 15) as support, but the neighbour reaction breaks a ladder whose support is
any diffuser. `PlacedLadderDetachesIffOpaqueDiffuserBehind` shows that a just-placed ladder
breaks off at its next neighbour update exactly when the block behind it is such a diffuser.
`OpaqueDiffuserSupportDropsLadder` gives a concrete world where this happens.

## Model

| member | source | states |
|---|---|---|
| `Ladders.UseOnBlock` | server/block/ladder.go:34-59 | Reports success iff `Resolve` gives a placement and the use context reports a placed block. The cells change only when `Resolve` gives a placement and the placement routine writes it: a ladder with the resolved facing in the resolved cell. Particles and drops never change. A rejection by `Resolve` never reaches the placement routine and changes nothing. |
| `Ladders.Resolve` | server/block/ladder.go:35-55 | A placement is only ever made in the cell the first-replaceable query returned |
| `Ladders.FirstSupported` | server/block/ladder.go:44-50 | The result is the index of the first candidate side whose neighbour is a non-diffuser or a level-15 diffuser; every earlier candidate fails; `|cands|` means none qualifies |
| `Ladders.Fallback` | server/block/ladder.go:43-53 | The scan finds a facing iff some side neighbour offers support; the found facing is a side face and the cell behind it offers support |
| `Ladders.FallbackOrderIsTheSideFaces` | server/block/ladder.go:44 | The scanned faces are exactly the four side faces |
| `Ladders.RejectsWithoutTarget` | server/block/ladder.go:35-38 | No replaceable cell means rejection |
| `Ladders.RejectsVerticalFace` | server/block/ladder.go:39-41 | A resolved face of Up or Down is rejected |
| `Ladders.KeepsSupportedFace` | server/block/ladder.go:42-55 | A side face whose back cell is not a light diffuser becomes the facing unchanged |
| `Ladders.FallbackPicksFirstSupportedSide` | server/block/ladder.go:43-53 | With a diffuser behind the clicked face, the first side in South, North, East, West order that offers support decides. The facing is that side's opposite. With no such side, placement is rejected. |
| `Ladders.FirstSupportedIgnoresLaterSides` | server/block/ladder.go:44-49 | The scan exits early: sides after the first supported one never influence the result |
| `Ladders.ResolvedFacingIsHorizontal` | server/block/ladder.go:39-57 | Every facing that reaches placement is North, South, East or West |
| `Ladders.ResolvedFacingIsSupported` | server/block/ladder.go:42-55 | The cell behind a resolved facing is a non-diffuser or a level-15 diffuser |
| `Ladders.ResolveSucceedsIff` | server/block/ladder.go:39-53 | Placement succeeds iff the face is a side face and some side neighbour offers support (both directions) |
| `Ladders.OpaqueDiffuserSupportCanChangeFacing` | server/block/ladder.go:42-47 | Concrete case: a level-15 diffuser behind the clicked West face sends the scan to South, so the facing is North |
| `Ladders.NeighbourUpdateTick` | server/block/ladder.go:25-31 | With a diffuser behind the ladder, the cell becomes air and exactly one break particle and one drop of count 1 are appended; every other cell reads as before. Otherwise cells, particles and drops are unchanged. |
| `Ladders.PlacedLadderDetachesIffOpaqueDiffuserBehind` | server/block/ladder.go:26-45 | A freshly placed ladder breaks off at its next neighbour update iff the block behind it is a level-15 diffuser |
| `Ladders.OpaqueDiffuserSupportDropsLadder` | server/block/ladder.go:26-45 | Concrete world where a placement succeeds and the next neighbour update drops the ladder |
| `Ladders.Detaches` | server/block/ladder.go:26 | Air or another ladder behind always detaches; a ladder that stays is backed by a block the fallback scan would accept |
| `Ladders.SideClosed` | server/block/ladder.go:69-71 | Always false, for every facing, cell and world |
| `Ladders.EncodeItem` | server/block/ladder.go:84-86 | The item form carries the block form's identifier and legacy metadata value 0 |
| `Ladders.EncodeBlock` | server/block/ladder.go:89-91 | The block form has the ladder identifier and only the `facing_direction` property, whose value names the ladder's facing |
| `Ladders.ItemFormIgnoresFacing` | server/block/ladder.go:84-91 | All ladders share one item form; its identifier is the block form's and its metadata value is 0 |
| `Ladders.EncodeBlockRoundTrip` | server/block/ladder.go:89-91 | Decoding the block form yields the same ladder, for all six facings including Up and Down |
| `Ladders.DecodeBlockRoundTrip` | server/block/ladder.go:89-91 | Any form that decodes to a ladder is exactly that ladder's encoding |
| `Ladders.EncodeBlockInjective` | server/block/ladder.go:89-91 | Distinct facings give distinct block forms |
| `Ladders.AllLadders` | server/block/ladder.go:99-104 | One ladder per element of `Faces()`, in that order; every ladder state occurs, and none occurs twice |
| `Cube.Opposite` | server/block/ladder.go:42 | The opposite face differs from the face and is horizontal iff the face is |
| `Cube.OppositeInvolution` | server/block/ladder.go:47 | Taking the opposite twice gives back the face |
| `Cube.FaceIndex` | server/block/ladder.go:90 | A face's numeric value lies in 0..5 |
| `Cube.FaceFromIndex` | server/block/ladder.go:90 | A numeric value names a face iff it lies in 0..5 |
| `Cube.FaceIndexRoundTrip` | server/block/ladder.go:90 | Converting a face to its value and back gives the face |
| `Cube.FaceFromIndexRoundTrip` | server/block/ladder.go:90 | Converting a valid value to a face and back gives the value |
| `Cube.FaceIndexInjective` | server/block/ladder.go:90 | Distinct faces have distinct numeric values |
| `Cube.Faces` | server/block/ladder.go:100 | Six faces, each at the position of its numeric value |
| `Cube.FacesListsEachFaceOnce` | server/block/ladder.go:100 | Every face occurs in `Faces()`, and exactly once |
| `Cube.Pos.Side` | server/block/ladder.go:42 | A neighbour is a different cell; it differs in height iff the face is Up or Down |
| `Cube.SideThenOpposite` | server/block/ladder.go:45-47 | Stepping through a face and back through its opposite returns to the cell |
| `Cube.SideInjective` | server/block/ladder.go:45 | Distinct faces lead to distinct neighbours |
| `World.Diffusion` | server/block/ladder.go:16 | Air and ladders are diffusers of level 0 |
| `World.Place` | server/block/ladder.go:57 | Puts the block into the cell iff the routine writes it, and leaves the logs unchanged |
| `World.Tx.SetBlock` | server/block/ladder.go:27 | Replaces one cell and leaves the logs unchanged |
| `World.Tx.AddParticle` | server/block/ladder.go:28 | Appends one particle and changes nothing else |
| `World.Tx.DropItem` | server/block/ladder.go:29 | Appends one drop and changes nothing else |

## Left out

- `EntityInside` (ladder.go:62-66) only calls the entity's own fall-distance reset. Entities are not modelled.
- `BreakInfo` (ladder.go:74-76) is float hardness plus helpers from elsewhere. `FuelInfo` (ladder.go:79-81) is a duration constant.
- `Model` (ladder.go:94-96) calls an external geometry constructor.
- `firstReplaceable`, `place` and `placed` live elsewhere in the `block` package and are not part of this model. `UseOnBlock` receives the first-replaceable query as a function of the cells, the clicked cell and face, and the block to place. Whether `place` writes the block (no entity in the way, item consumed) is the parameter `writes`; what `placed(ctx)` then reports is the independent parameter `reports`. The user, the click position and the use context itself are not modelled.
- `Vec3Centre` produces floating-point coordinates. The centre of a cell is represented by the cell itself.
- The particle and dropped-item entity are entries appended to the transaction's logs. Rendering and entity spawning are not modelled.
- The world engine decides which block's neighbour reaction runs; that dispatch is not modelled. `NeighbourUpdateTick`, like the source, does not check that its cell still holds the ladder. Not repeating a drop on a cleared cell is the engine's job, since it dispatches only to blocks present.
- The ladder displaces source water (`sourceWaterDisplacer`, ladder.go:17). The liquid layer of a cell is not modelled: each cell holds exactly one block, so a ladder sharing its cell with water is not represented, and `NeighbourUpdateTick` always leaves air behind.
- Cell coordinates are unbounded integers. The source's 64-bit overflow at the world's edge is not modelled.
- Transactions are taken one at a time; concurrency between them is not modelled.
- `DecodeBlock` is a reference inverse of `EncodeBlock`. The server's real block decoding is not part of this model.
