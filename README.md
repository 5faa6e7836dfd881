# geohash-16 in Dafny

A model of the core of the `geohash-16` Rust library (`src/core.rs`), with proofs about it.

A geohash-16 hash names a rectangular cell of the world. It uses 16 symbols (`0-9a-f`), so each character carries four bits. Bits alternate between longitude and latitude, longitude first. Each bit halves the current cell on its axis: 1 keeps the upper half, 0 keeps the lower half. The world is longitude -180..180 and latitude -90..90.

The model covers the library's public operations:

- `encode`: a point and a length to a hash.
- `decode_bbox`: a hash to its cell.
- `decode`: a hash to the centre of its cell plus the longitude and latitude margins.
- `neighbor`: the hash of the adjacent cell in one of eight compass directions.
- `neighbors`: all eight neighbours.

Modules:

- `GeohashTypes` (`types.dfy`): coordinates, rectangles, the error type, a `Result` with early return, the compass directions, the neighbour record, and three generic sequence lemmas.
- `Alphabet` (`alphabet.dfy`): the 16-character table and `hash_value_of_char`.
- `Bitstream` (`bitstream.dfy`): the functions used as specifications, each with a name ending in `Spec` or built on one:
  - a point's bit stream (`PointBits`);
  - the cell a bit stream names (`BoxOf`);
  - the characters a bit stream spells (`HashOfBits`);
  - the digit values of a hash (`Digits`).

  It also holds the lemmas that relate these to one another: round trips, nesting, and cells seen as positions on a grid.
- `Geohash` (`core.dfy`): the operations themselves.
  - `Encode` and `DecodeBbox` are methods with the source's loops. The inner four-bit loops are the methods `EncodeBits` and `DecodeBits`. Each method is proved equal to `EncodeSpec` or `DecodeBboxSpec`.
  - `Decode`, `Neighbor` and `Neighbors` are functions, as in the source, which only combines calls.
  - The module also holds the lemmas about all of these.
- `Vectors` (`vectors.dfy`): the values the library's documentation and tests give, proved of the model.
  - `Cell_<hash>` derives the cell of each hash used there, one character at a time.
  - `Neighbor_<hash>_<direction>` shows that each expected neighbour is the hash of the adjacent cell.

Behaviour kept from the source:

- The encoder's bit counter is an `i8` that wraps around. `WrapI8` models this.
- At a border the encoder puts a point into the lower half: the test is a strict `>`.
- A point outside the world fails, and the error carries that point.
- Decoding stops at the first character outside the alphabet. Upper-case hex digits count as outside.
- Where a neighbour would lie beyond the world's edge, there is no wrap across the antimeridian or the poles. `Neighbor` fails with the range error, and `Neighbors` fails with the error of the first failing direction, taken in the order SW, S, SE, W, E, NW, N, NE.

## Model

| member | source | states |
|---|---|---|
| Alphabet.HashValueOfChar | src/core.rs:136-144 | a character is accepted exactly when it is in `0-9a-f`; its value is its position in the code table; any other character is `InvalidHashCharacter` carrying that character |
| Alphabet.CodeRoundTrip | src/core.rs:6-8 | reading back the code-table character for value `v` gives `v`, so the encoder's table and `hash_value_of_char` are inverse |
| GeohashTypes.ToTuple | src/core.rs:207-208 | each direction maps to a (dlat, dlng) pair of signs in {-1, 0, 1}, not both zero; dlat is 1 exactly for N, NE, NW and -1 exactly for S, SE, SW; dlng is 1 exactly for E, NE, SE and -1 exactly for W, NW, SW |
| Geohash.WrapI8Parity | src/core.rs:36-49 | the wrapped `i8` bit counter is even exactly when the stream position is a longitude position, so `bits_total % 2 == 0` picks the right axis even after the counter wraps |
| Geohash.EncodeBits | src/core.rs:48-69 | four passes of the inner loop leave the cell the encoder's search has reached after four more bits; the character value is those four bits, most significant first, below 16; the counter advances by four, with wrap-around |
| Geohash.Encode | src/core.rs:33-76 | the result equals `EncodeSpec`; it fails exactly when the coordinate is outside the world, with `InvalidCoordinateRange` carrying it; on success the hash has `len` characters, all from the code table |
| Bitstream.EncodedCharsIsHash | src/core.rs:47-74 | the characters the outer loop pushes one by one spell the hash of the encoder's whole bit stream |
| Bitstream.OwnedPointEncodes | src/core.rs:47-74 | every point a cell owns encodes to exactly that cell's bits |
| Geohash.EncodePrefix | src/core.rs:47-74 | encoding to fewer characters gives a prefix of the longer encoding |
| Geohash.DecodeBits | src/core.rs:101-121 | four passes of the inner loop halve the cell by the character's four bits, most significant first, alternating axes; the axis flag returns to its starting value |
| Geohash.DecodeBbox | src/core.rs:89-134 | the result equals `DecodeBboxSpec`: the first invalid character's error, otherwise the cell the hash's bits name |
| Bitstream.DigitsMeaning | src/core.rs:98-99 | the characters' values are read exactly when every character is in the alphabet; each value is its character's position in the table; otherwise the error names the first invalid character |
| Geohash.DecodeBboxOutcome | src/core.rs:89-134 | `decode_bbox` succeeds exactly when every character is valid; otherwise it fails with `InvalidHashCharacter` for the first invalid one; the empty hash decodes to the whole world |
| Bitstream.BoxProper | src/core.rs:101-121 | every cell has positive width and height and lies inside the world |
| Geohash.PrefixCellsNest | src/core.rs:98-122 | every prefix of a valid hash is valid, and its cell contains the cell of the longer hash |
| Bitstream.DecodeOfHash | src/core.rs:89-134 | decoding the hash spelled by a whole-character bit stream gives that stream's cell |
| Geohash.SameCellSameHash | src/core.rs:89-134 | two valid hashes of the same length with the same cell are the same hash |
| Geohash.Decode | src/core.rs:190-202 | `decode` succeeds exactly when `decode_bbox` does, and otherwise fails with the same error |
| Geohash.DecodeErrors | src/core.rs:199-200 | the margins of an n-character hash are 180 / 2^(2n) degrees of longitude and 90 / 2^(2n) of latitude |
| Geohash.DecodeCentre | src/core.rs:194-201 | the cell is the centre plus or minus the two margins, and the cell owns its centre |
| Geohash.ErrorsShrink | src/core.rs:199-200 | a longer valid hash has strictly smaller margins on both axes |
| Geohash.EncodeDecodeRoundTrip | src/core.rs:33-76 | encoding a point of the world and decoding the result gives a cell containing the point; the point lies within the margins of the decoded centre |
| Geohash.CentreReencodes | src/core.rs:190-202 | encoding a valid hash's decoded centre, at the hash's length, gives back the hash |
| Geohash.Neighbor | src/core.rs:205-214 | an invalid hash gives its decoding error; a neighbour has the hash's length and uses only code-table characters |
| Geohash.NeighborIsStepCentre | src/core.rs:206-213 | the neighbour is the encoding of the centre of the cell moved by one cell width and height in the direction |
| Geohash.NeighborIsAdjacent | src/core.rs:205-214 | a valid hash has a neighbour exactly when the adjacent cell lies in the world; that neighbour decodes to exactly the adjacent cell |
| Geohash.NeighborDiffers | src/core.rs:205-214 | a neighbour is never the hash itself |
| Geohash.NeighborInverse | src/core.rs:205-214 | stepping to a neighbour and back in the opposite direction returns the original hash |
| Geohash.Gather | src/core.rs:240-249 | the eight `?` steps give a neighbour set exactly when all eight results succeed |
| Geohash.Neighbors | src/core.rs:239-250 | `neighbors` succeeds exactly when each of the eight `neighbor` calls succeeds |
| Geohash.NeighborsAllOrNothing | src/core.rs:239-250 | the neighbour set exists exactly when the neighbour in every direction exists |
| Geohash.NeighborsFirstError | src/core.rs:239-250 | a failed `neighbors` carries the error of the first direction, in the order SW, S, SE, W, E, NW, N, NE, whose `neighbor` fails |
| Vectors.EncodeOfOwned | src/core.rs:33-76 | every point that the cell of a valid hash owns encodes, at the hash's length, to that hash |
| Vectors.NeighborOfCells | src/core.rs:205-214 | a hash of the same length whose cell is the adjacent cell in a direction, inside the world, is the neighbour in that direction |
| Vectors.EncodeDocExample | src/core.rs:14-22 | the point (-120.6623, 35.3003) encodes at five characters to "4d8c0" |
| Vectors.EncodeDocLongExample | src/core.rs:24-32 | the same point encodes at ten characters to "4d8c0f1817" |
| Vectors.DecodeDocExample | src/core.rs:151-169 | "4d8c0" decodes to the centre (-120.76171875, 35.244140625) with margins 0.17578125 and 0.087890625 |
| Vectors.DecodeDocLongExample | src/core.rs:171-189 | "4d8c0f1817" decodes to the centre (-120.662326812744140625, 35.3003597259521484375) with margins 0.000171661376953125 and 0.0000858306884765625; the documented `f64` literals -120.66232681274414 and 35.30035972595215 are the shortest decimal forms of exactly these two values (the comment calls the hash "length eight"; it has ten characters) |
| Vectors.NeighborsDocExample | src/core.rs:220-238 | the neighbours of "4d8c0f1817" are 4d8c0f1842 (N), 4d8c0f1848 (NE), 4d8c0f181d (E), 4d8c0f181c (SE), 4d8c0f1816 (S), 4d8c0f1814 (SW), 4d8c0f1815 (W) and 4d8c0f1840 (NW) |
| Vectors.EncodeLongExample | tests/base.rs:8-12 | the point (112.5584, 37.8324) encodes at twelve characters to "e71150dc9947" |
| Vectors.EncodeExample | tests/base.rs:14-18 | the point (117, 32) encodes at three characters to "e65" |
| Vectors.EncodeRangeExample | tests/base.rs:20-24 | encoding the point (190, -100) fails with `InvalidCoordinateRange` carrying that point |
| Vectors.DecodeInvalidExample | tests/base.rs:48 | "wwgj" fails to decode, with the error for its first character 'w' |
| Vectors.DecodeExample | tests/base.rs:45 | "e71150" decodes to the centre (112.5439453125, 37.81494140625) with margins 0.0439453125 and 0.02197265625; the centre lies within the test's tolerance of 0.00001 of (112.543945, 37.814941) |
| Vectors.DecodeSecondExample | tests/base.rs:46 | "e65b4a" decodes to the centre (117.0263671875, 32.01416015625) with the same margins; the centre lies within 0.00001 of (117.02636, 32.01416) |
| Vectors.NeighborsExample | tests/base.rs:52-62 | the neighbours of "e71150dc99" are e71150dc92 (SW), e71150dc98 (S), e71150dc9a (SE), e71150dc93 (W), e71150dc9b (E), e71150dc96 (NW), e71150dc9c (N) and e71150dc9e (NE) |
| Vectors.NeighborsWideExample | tests/base.rs:65-75 | the neighbours of "e7115" are e5bbe (SW), e7114 (S), e7116 (SE), e5bbf (W), e7117 (E), e5bea (NW), e7140 (N) and e7142 (NE); three of them change the second character |

## Left out

- Floating point: coordinates, midpoints and margins are exact reals. The source uses `f64`. Its halvings of the world's bounds are exact for far more bits than any useful hash length, but a coordinate's own rounding is not modelled. The example points in module `Vectors` are exact decimals; each lies at least 0.000002 degrees inside its cell, far more than the rounding of its `f64` literal.
- NaN coordinates: in the source, every comparison with NaN is false, so a NaN passes `encode`'s range check. Reals have no NaN.
- Encode: models the release-build behaviour of the `i8` counter `bits_total`, which wraps. A debug build panics on the 128th bit, that is for `len >= 32`. That panic is not modelled.
- GeohashTypes.ToTuple: `Direction::to_tuple` is in the `neighbors` module, which is not shown and is not part of this model. Its table is taken as N=(1,0), NE=(1,1), E=(0,1), SE=(-1,1), S=(-1,0), SW=(-1,-1), W=(0,-1), NW=(1,-1), as (dlat, dlng). The 24 neighbour values in tests/base.rs:52-75 and src/core.rs:220-238 are proved from this table in module `Vectors`.
- Neighbor: `hash_str.len()` counts bytes, and the model uses the number of characters. The two agree whenever `encode` is reached, because decoding has already succeeded and every character is ASCII.
- The `failure` crate's boxed `Error`: the model returns `GeohashError` directly. It also leaves out `geo_types`' genericity over the number type, since only `f64` is used.
