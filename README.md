# Snake board coordinates and cell identifiers, in Dafny

This project models the two pure building blocks of a grid-based snake game
played on a wrap-around (toroidal) board:

- **coordinate arithmetic** (`src/math.ts`): a coordinate is a `[row, col]`
  pair. `vec2PlaneAdd` adds two coordinates component-wise. `modulo` is the
  floor-style `((a % b) + b) % b` built on JavaScript's truncating `%`.
  `vec2ToroidAdd` reduces each axis of the sum with `modulo`, so that a
  move past one edge re-enters at the opposite edge.
- **cell identifiers** (`src/utils.ts`): `coordToId` names a cell by the
  string `"<row>-<col>"`. `idToCoord` splits an identifier on `'-'` and
  reads each piece with `Number`.

The files:

- `math.dfy` (module `Math`): the `Coord2D` datatype and `PlaneAdd`.
  `JsRem` models JavaScript's `%` on integers: the remainder of the
  division truncated toward zero, carrying the sign of the dividend.
  `Modulo` and `ToroidAdd` are built on it. The lemmas cover the range,
  the congruence, agreement with Dafny's Euclidean `%`, idempotence,
  composition of moves, and the wrap at the edges of the 21 x 21 board.
- `jstext.dfy` (module `JsText`): the JavaScript built-ins that the
  identifier codec uses, restricted to integers and ASCII text:
  - decimal printing of an integer (`NatToDecimal`, `IntToDecimal`);
  - `Number(text)` on a piece of an identifier (`ParseNumber`, with
    `DecimalToNat`);
  - `String.prototype.split` with a one-character separator (`Split`), and
    `Array.prototype.join` as its inverse (`Join`).
- `utils.dfy` (module `Utils`): `CoordToId`, `IdToCoord` and the round-trip
  lemmas.

`idToCoord` casts the result of `split(...).map(Number)` to a pair without
checking it. `Utils.IdToCoord` therefore returns the whole sequence of
numbers, and the lemmas say when it is a pair. It is a pair exactly when
the identifier holds one `'-'`. That is true of every cell a wrap-around
move with positive moduli can reach, and false of every coordinate with a
negative component. The source does not raise an error on a malformed
identifier. A malformed identifier may give a sequence of the wrong length,
a `NaN` entry, or a pair that `coordToId` does not write back as the same
identifier (`"-5"` reads as `[0, 5]`, `"07-5"` as `[7, 5]`).

## Model

| member | source | states |
|---|---|---|
| `Math.PlaneAdd` | src/math.ts:3-8 | `vec2PlaneAdd(a, b)` is `a` translated by the offset `b`: the result minus `a` is `b` on each axis |
| `Math.PlaneAddIsGroup` | src/math.ts:3-8 | `vec2PlaneAdd` is commutative and associative, `(0, 0)` is its zero, and every coordinate has an inverse |
| `Math.JsRem` | src/math.ts:11 | JavaScript's `a % b` (`b != 0`): for `a >= 0` the result is in `[0, abs(b))`, for `a < 0` it is in `(-abs(b), 0]`, and `b` divides `a - r` |
| `Math.Modulo` | src/math.ts:10-12 | `modulo(a, b)` lies in `[0, b)` for `b > 0` and in `(b, 0]` for `b < 0`, and `b` divides `a - modulo(a, b)` (congruence), for every integer `a`, negatives included |
| `Math.ModuloUnique` | src/math.ts:11 | any value in that range and congruent to `a` equals `modulo(a, b)`: the range and the congruence determine the result |
| `Math.ModuloIsEuclidean` | src/math.ts:11 | for `b > 0`, `modulo(a, b)` equals the Euclidean `a mod b`, although the inner JavaScript `%` truncates toward zero |
| `Math.ModuloOfInRange` | src/math.ts:11 | a value already in the floor range is returned unchanged (`0 <= a < b` gives `a` for `b > 0`) |
| `Math.ModuloIdempotent` | src/math.ts:11 | `modulo(modulo(a, b), b) == modulo(a, b)` for every `a` |
| `Math.ModuloPeriodic` | src/math.ts:11 | adding any multiple of `b` to `a` does not change `modulo(a, b)` |
| `Math.ModuloAddReduced` | src/math.ts:11 | reducing a summand before adding does not change the reduced sum |
| `Math.ToroidAdd` | src/math.ts:14-27 | `vec2ToroidAdd(a, b, r, c)` lies on the board `[0, r) x [0, c)` when `r, c > 0`; each component is in the floor range of its modulus and congruent to the plain sum on that axis |
| `Math.ToroidAddIsReducedPlaneAdd` | src/math.ts:23-26 | for positive moduli, the wrap-around sum is `vec2PlaneAdd(a, b)` with each component reduced by the Euclidean `mod` of its axis |
| `Math.ToroidAddZero` | src/math.ts:23-26 | adding `(0, 0)` to a coordinate on the board leaves it unchanged |
| `Math.ToroidAddCompose` | src/math.ts:14-27 | two successive wrap-around moves by `b` then `d` equal one move by `b + d` |
| `Math.ToroidAddUndo` | src/math.ts:14-27 | a move followed by the opposite move returns to the starting cell on the board |
| `Math.ToroidAddWrapsOnBoard21` | src/math.ts:23-26 | on the 21 x 21 board: `(0,0)+(-1,0)` gives `(20,0)`, `(20,0)+(1,0)` gives `(0,0)`, `(0,20)+(0,1)` gives `(0,0)`, and `(0,0)+(0,-1)` gives `(0,20)` |
| `JsText.NatToDecimal` | src/utils.ts:5 | a number interpolated into the template string prints as a canonical numeral: digits only, with a leading `'0'` exactly for zero |
| `JsText.IntToDecimal` | src/utils.ts:5 | a non-negative integer `n` prints as a canonical numeral whose value is `n`; a negative `n` prints as `'-'` followed by a canonical numeral, not starting with `'0'`, whose value is `-n` |
| `JsText.DecimalToNatOfNatToDecimal` | src/utils.ts:5-9 | reading back a printed numeral with `Number` gives the number again |
| `JsText.NatToDecimalOfDecimalToNat` | src/utils.ts:5-9 | printing the value of a canonical numeral gives the same text |
| `JsText.ParseNumber` | src/utils.ts:9 | `Number(piece)` gives a number exactly when the piece is all decimal digits, that number is never negative, and the empty piece gives 0 |
| `JsText.ParseNumberLeadingZero` | src/utils.ts:9 | a leading `'0'` does not change what a digit string reads as: `Number("0" + s) == Number(s)` |
| `JsText.ParseNumberOfNatToDecimal` | src/utils.ts:5-9 | `Number` of the printed numeral of `n` is `n` |
| `JsText.Split` | src/utils.ts:9 | `id.split("-")` gives one more piece than there are `'-'` in `id`, and no piece contains `'-'` |
| `JsText.JoinOfSplit` | src/utils.ts:9 | joining the pieces of a split with the separator gives back the original string (nothing is lost) |
| `JsText.SplitOfJoin` | src/utils.ts:9 | splitting the join of a non-empty list of separator-free pieces gives back that list |
| `JsText.SplitAfterPiece` | src/utils.ts:9 | a separator-free prefix followed by the separator splits off as exactly the first piece |
| `Utils.CoordToId` | src/utils.ts:3-6 | the identifier holds one `'-'` plus one more per negative component; with no negative component it splits into exactly the two numerals of row and column |
| `Utils.IdToCoord` | src/utils.ts:8-10 | `idToCoord` gives one number per `'-'`-separated piece (count of `'-'` plus one), unchecked against the pair type, and no component is negative |
| `Utils.IdToCoordOfCoordToId` | src/utils.ts:3-10 | `idToCoord(coordToId([row, col])) == [row, col]` holds if and only if `row >= 0` and `col >= 0` |
| `Utils.CoordToIdInjective` | src/utils.ts:5 | on coordinates without negative components, two coordinates have the same identifier if and only if they are equal |
| `Utils.NegativeRowIdHasThreePieces` | src/utils.ts:5-9 | `coordToId([-1, 2])` is `"-1-2"`, which splits into `["", "1", "2"]` and reads back as `[0, 1, 2]` |
| `Utils.MalformedIdsReadAsPairs` | src/utils.ts:8-10 | identifiers `coordToId` never writes still read as clean pairs: `"-5"` as `[0, 5]`, `"5-"` as `[5, 0]`, and `"07-5"` as `[7, 5]`, whose identifier is `"7-5"` |
| `Utils.CoordToIdOfIdToCoord` | src/utils.ts:3-10 | a canonical identifier (two canonical numerals joined by one `'-'`) reads as a pair of numbers that `coordToId` writes back as the same identifier |
| `Utils.CoordToIdIsCanonical` | src/utils.ts:3-6 | the identifier of a coordinate without negative components is canonical, so `coordToId` is a bijection onto canonical identifiers |
| `Utils.ToroidAddIdRoundTrip` | src/utils.ts:3-10 | every cell produced by `vec2ToroidAdd` with positive moduli round-trips through `coordToId` and `idToCoord` |

## Left out

- Math.Modulo: requires `b != 0`. In JavaScript `modulo(a, 0)` is `NaN`, which the integer model does not represent.
- Math.ToroidAdd: requires non-zero moduli for the same reason. A zero modulus gives `NaN` components.
- Math.JsRem: requires `b != 0` for the same reason.
- Coordinates are modelled as unbounded integers. JavaScript numbers are IEEE doubles: non-integer coordinates, loss of precision beyond 2^53, `Infinity` and `NaN` are not modelled.
- Utils.CoordToId: prints integers in plain decimal. JavaScript switches to exponent notation from 10^21 on, which is not modelled.
- JsText.ParseNumber: gives `NaN` for every piece that is not all ASCII digits. `Number` also accepts surrounding whitespace, a sign, a decimal point, an exponent, `0x`/`0b`/`0o` prefixes and `Infinity`, which the model does not. A piece of an identifier never contains `'-'`, so only the sign `'+'` would matter.
- `styleElements` (src/utils.ts:12-17) looks up DOM elements and adds CSS classes. That is a rendering effect, so it is not modelled.
- All of src/main.ts is left out. It builds and empties the DOM grid, styles cells and declares the constant `snake` and `apples` arrays, and none of it is an operation on state. Its grid ids are 1-based, while `vec2ToroidAdd` produces 0-based coordinates. That mismatch is a rendering concern.
- The game engine (tick, collisions, apple spawning, pause, direction input) does not appear in the source files of this model, so it is not modelled.
